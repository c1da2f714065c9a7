# cframe edge server: the peer route table

A cframe edge server forwards packets it reads from its tun device to the edge that owns the destination subnet. It keeps a route table, `Server.peerConns`. The table maps a peer's CIDR text (`10.0.2.0/24`) to a `peerConn`: the UDP connection dialled to that peer's address, plus the CIDR it was added under. The controller drives the table through `AddPeer`, `AddPeers` and `DelPeer`. For each outgoing packet, `route(dst)` picks the connection of the entry whose subnet contains `dst`.

The project models that table in three modules:

- `Wrappers` (`wrappers.dfy`): `Option` and `Result`.
- `Cidr` (`cidr.dfy`): the text and address arithmetic the lookup relies on.
  - Decimal text (Go's `itoa`, and `dtoi` as a left-to-right scan with its cutoff) and `strings.Split`/`Join` for a one-character separator.
  - Dotted-quad IPv4 parsing and formatting, and `net.ParseCIDR` with its masking.
  - `IPNet.String`, and the per-entry test of `route` (`Matches`).
- `Cframe` (`cframe.dfy`): the `Server` class, whose `peerConns` map its methods update in place.
  - Each connection is a `UdpConn` object.
  - The server keeps three ghost sets: the connections it has dialled, the ones it has closed, and the CIDRs the OS routes into the tun device.
  - Pure step functions (`DelStep`, `ConnectStep`, `RouteAddStep`, `AddStep`, `AddAll`) give each method's effect on the externally visible state. That state is CIDR to remote address, plus the OS routes.
  - The batch lemmas are proved about those step functions.

Two invariants describe a well-formed server:

- `Consistent`: every entry is keyed by its own CIDR and holds an open connection the server dialled, and no two entries share a connection. Every method keeps it.
- `NoLeak`: every dialled connection that is still open is in the table. `NewServer` establishes it, and `DelPeer`, `AddPeer`, `AddPeers` and `disconnPeer` keep it. `connectPeer` keeps it only when the CIDR had no entry: like the Go code (edge/cframe.go:205), it overwrites an existing entry without closing that entry's connection. Its only caller, `AddPeer`, runs `DelPeer` first, so the CIDR is always free by then.

The outside world enters as booleans chosen by the caller (`Effects`): whether resolve-and-dial succeeded, whether `route add` succeeded, and whether `route del` succeeded. Go's map iteration order is unspecified, so `Route` picks the next entry with a nondeterministic choice. It is specified relationally.

In `AddPeer`, a failed `connectPeer` is only logged, and `route add` still runs (edge/cframe.go:153-158). So a dial failure does not abort the add. The model follows the code: after a dial failure the table holds no entry for the CIDR, yet the OS route may be installed. `AddStepOutcome` states this. A rollback does not undo the add either. The leading `DelPeer` (edge/cframe.go:146) has already closed the CIDR's previous connection, and may have removed its OS route. The rollback `disconnPeer` (edge/cframe.go:164) restores neither, so after a failed `route add` the CIDR has no peer even if it had one before. `AddStepOutcome` states this too: an entry exists afterwards exactly when both the dial and `route add` succeeded.

## Model

| member | source | states |
|---|---|---|
| `Cframe.Server.constructor` | edge/cframe.go:30-35 | `NewServer`: the table is empty, `laddr` is kept, nothing is dialled or closed, and both invariants hold |
| `Cframe.UdpConn.Dial` | edge/cframe.go:194 | a successful `net.DialUDP`: a new connection object whose remote address is the host's address |
| `Cframe.Server.Route` | edge/cframe.go:116-142 | a returned connection belongs to an entry whose CIDR parses and whose network contains `dst`; the error is exactly "no route" and then no entry's network contains `dst` (entries that fail to parse never match) |
| `Cframe.Server.DisconnPeer` | edge/cframe.go:209-216 | the key is removed and every other entry is unchanged; a present key's connection is closed and nothing else is; an absent key changes nothing; both invariants are kept |
| `Cframe.Server.ConnectPeer` | edge/cframe.go:187-207 | on a dial failure the table and the dialled set are unchanged; on success a fresh connection to the host's address is stored under the host's CIDR, paired with that same CIDR, and no other entry changes |
| `Cframe.Server.DelPeer` | edge/cframe.go:177-185 | the CIDR's entry is removed and its connection closed, other entries are unchanged, and the OS route goes only when `route del` succeeds |
| `Cframe.Server.AddPeer` | edge/cframe.go:145-169 | any old connection for the CIDR is closed. After dial and `route add` both succeed, the table is the old one with the CIDR mapped to a fresh open connection to the host. After a rollback, or after a dial failure whatever `route add` did, the table is the old one without the CIDR. A rolled-back connection is closed. Both invariants are kept |
| `Cframe.Server.AddPeers` | edge/cframe.go:171-175 | the snapshot (CIDR to remote address, plus the OS routes) ends as the in-order fold of `AddStep` over the hosts. On the connections themselves: every connection stored under a CIDR the batch names is closed. An entry under such a CIDR holds a connection the batch dialled. Entries of the other CIDRs keep their connection objects unchanged. The invariants are kept, and every newly dialled connection is fresh |
| `Cframe.DelStep` | edge/cframe.go:177-185 | `DelPeer` on the snapshot: the CIDR's peer is removed, and its OS route goes only when `route del` succeeds |
| `Cframe.ConnectStep` | edge/cframe.go:187-207 | `connectPeer` on the snapshot: a successful dial maps the host's CIDR to its address, and a failed one changes nothing |
| `Cframe.RouteAddStep` | edge/cframe.go:158-166 | `route add` on the snapshot: on success the CIDR gains its OS route; on failure the rollback `disconnPeer` removes the CIDR's peer and leaves the OS routes alone |
| `Cframe.AddStep` | edge/cframe.go:145-169 | `AddPeer` on the snapshot: `DelStep`, then `ConnectStep` whatever the dial did, then `RouteAddStep` |
| `Cframe.AddAll` | edge/cframe.go:171-175 | `AddPeers` on the snapshot: `AddStep` for each host in list order |
| `Cframe.BatchStep` | edge/cframe.go:171-175 | one more add keeps the batch invariant with its CIDR now named: the old connection under the CIDR is closed, the CIDR then holds nothing or a newly dialled connection, and other CIDRs are untouched |
| `Cframe.AddStepOutcome` | edge/cframe.go:145-169 | after one add, the CIDR has an entry exactly when the dial and `route add` both succeeded, and then it is the new host; other CIDRs and their OS routes are untouched |
| `Cframe.AddStepTwice` | edge/cframe.go:145-146 | adding the same host twice leaves the same peers as the second add alone, because the leading `DelPeer` wipes the first; with `route add` succeeding the second time, the whole state is the same |
| `Cframe.DelAfterAdd` | edge/cframe.go:177-179 | deleting a host right after adding it leaves the peers as before minus that CIDR, whatever the add did |
| `Cframe.AddAllUntouched` | edge/cframe.go:171-175 | a batch leaves the entry of a CIDR that none of its hosts names exactly as it was |
| `Cframe.AddAllLastWins` | edge/cframe.go:171-175 | in a batch, the last host naming a CIDR decides its entry: it exists exactly when that host's dial and `route add` both succeeded, and then it points at that host |
| `Cidr.Itoa` | edge/cframe.go:137 | the decimal text of a number: non-empty digits, no leading zero except for "0", reading back to the number |
| `Cidr.ItoaOfDigits` | edge/cframe.go:118 | a digit string without a leading zero is the `Itoa` of its value |
| `Cidr.DtoiFromWhole` | edge/cframe.go:118 | Go's `dtoi` scan, with its cutoff, consumes the whole text exactly when the text is one or more digits whose value stays under the cutoff, and then it reads that value |
| `Cidr.Dtoi` | edge/cframe.go:118 | Go's `dtoi` as `net.ParseCIDR` runs it on the prefix text: the scan from index 0 with nothing read yet |
| `Cidr.DtoiFrom` | edge/cframe.go:118 | the loop of `dtoi`: a successful scan has read at least one character, every character it read is a digit, and it stops at a non-digit or at the end. Started on a digit prefix with its value, it reads the value of all the digits it consumed. A failed scan is either at index 0 (no digit read) or carries the cutoff value |
| `Cidr.ParsePrefix` | edge/cframe.go:118 | the prefix test of `net.ParseCIDR` (`dtoi` succeeds, stops at the end of the text, reads at most 32) accepts exactly the non-empty digit strings worth at most 32 (leading zeros allowed), and reads their value |
| `Cidr.ParseOctet` | edge/cframe.go:118 | an address field parses to `v` exactly when it is the canonical decimal text of some `v` of at most 255 |
| `Cidr.Split` | edge/cframe.go:124 | `strings.Split`: at least one piece, no piece holds the separator, and joining the pieces with it gives the input back |
| `Cidr.SplitJoin` | edge/cframe.go:124 | splitting the join of separator-free pieces gives the pieces back |
| `Cidr.IndexOf` | edge/cframe.go:118 | the cut of `net.ParseCIDR` at the first `/`: none exactly when the text has no slash, and otherwise an index holding the character with none before it |
| `Cidr.ParseIPv4` | edge/cframe.go:118 | an address that parses formats back to exactly the input text |
| `Cidr.FormatParseIPv4` | edge/cframe.go:137 | parsing the dotted-quad text of any address gives that address back |
| `Cidr.ParseIPv4Exactly` | edge/cframe.go:118 | a text parses to address `x` exactly when it is the dotted-quad text of `x`: Go's IPv4 parser accepts exactly the canonical texts |
| `Cidr.FormatIPv4` | edge/cframe.go:137 | `IP.String` for an IPv4 address: the decimal texts of its four octets, most significant first, joined by dots |
| `Cidr.Mask` | edge/cframe.go:118 | masking to a prefix gives the largest multiple of the block size 2^(32-prefix) that is not above the address |
| `Cidr.MaskIdempotent` | edge/cframe.go:118 | a masked address is unchanged by masking it again to the same prefix |
| `Cidr.MaskUnique` | edge/cframe.go:118 | a multiple of the block size within one block below the address is its masked value |
| `Cidr.MaskNested` | edge/cframe.go:118-137 | masking to a long prefix and then to a shorter one is masking to the shorter one |
| `Cidr.ParseCidr` | edge/cframe.go:118 | `net.ParseCIDR`: a result is canonical (no host bits, prefix at most 32), and only a text with a slash parses |
| `Cidr.NetworkOf` | edge/cframe.go:118 | the network `net.ParseCIDR` builds once the address and the prefix have both parsed: the address masked to the prefix, paired with the prefix; nothing when either failed |
| `Cidr.NetworkString` | edge/cframe.go:137 | `IPNet.String` for an IPv4 network with a canonical mask: the base address's text, a slash, and the prefix length in decimal |
| `Cidr.ParseJoined` | edge/cframe.go:130-131 | parsing `addr/mask` as formatted by `Sprintf("%s/%s", ...)` is parsing `addr` as an address and `mask` as a prefix, even if `addr` itself holds a slash |
| `Cidr.ParsedCidrSplits` | edge/cframe.go:118-128 | a CIDR that parses splits at `/` into exactly two pieces, so the `len(sp) != 2` branch is never taken after a successful parse, and the pieces are the address and prefix it was parsed from |
| `Cidr.ParseNetworkString` | edge/cframe.go:137 | parsing the string form of a canonical network gives that network back |
| `Cidr.NetworkStringInjective` | edge/cframe.go:137 | two canonical networks have equal string forms exactly when they are equal |
| `Cidr.Matches` | edge/cframe.go:118-137 | the per-entry test of `route`, step by step as the code does it: parse the entry's CIDR, split it at `/` and require two pieces, parse `dst` joined to the entry's prefix text, then compare the two networks' string forms |
| `Cidr.Claims` | edge/cframe.go:116-142 | the meaning the lookup is meant to have: the entry's CIDR parses, `dst` is a dotted quad, and `dst` lies in the entry's network |
| `Cidr.MatchesIffClaims` | edge/cframe.go:117-139 | `route`'s per-entry test holds exactly when the entry's CIDR parses, `dst` is a dotted quad, and `dst` masked to the entry's prefix is the entry's network address |
| `Cidr.MatchingEntriesOverlap` | edge/cframe.go:116-142 | two entries that both match a destination have overlapping networks, so with non-overlapping entries the map's iteration order cannot change the lookup's answer |
| `Cidr.ParseDotted` | edge/cframe.go:118 | the canonical text `a.b.c.d` parses to the address with those octets |
| `Cidr.ParseDottedCidr` | edge/cframe.go:118 | the canonical text `a.b.c.d/n` parses to that address masked to `n` |
| `Cidr.ExampleNetworks` | edge/cframe.go:118 | `10.0.1.0/24` and `10.0.2.0/24` parse to the networks 10.0.1.0 and 10.0.2.0 with prefix 24 |
| `Cidr.ExampleDestination` | edge/cframe.go:116-142 | for any dotted quad `a.b.c.d`, each of the two example entries matches it exactly when its /24 mask is that entry's network |
| `Cidr.ExampleFirstSubnet` | edge/cframe.go:116-142 | 10.0.1.5 is matched by 10.0.1.0/24 and not by 10.0.2.0/24 |
| `Cidr.ExampleSecondSubnet` | edge/cframe.go:116-142 | 10.0.2.9 is matched by 10.0.2.0/24 and not by 10.0.1.0/24 |
| `Cidr.ExampleNeitherSubnet` | edge/cframe.go:116-142 | 10.0.3.1 is matched by neither entry |

## Left out

- `ListenAndServe`, `readRemote` and `readLocal` (edge/cframe.go:42-114): blocking UDP and tun-device I/O loops. `Packet` and `Interface` are not part of this model.
- `SetRegistry` and `Registry.Report`: the registry is foreign code that is not part of this model.
- `execCmd`, `net.ResolveUDPAddr`, `net.DialUDP` and `Conn.Close`: OS and network side effects.
  - `route add` and `route del` are success flags.
  - Resolving and dialling are one combined flag, because `connectPeer` treats either failure the same way.
  - Closing a connection is recorded in the server's ghost set of closed connections.
  - Packets written to a connection are not modelled.
- The tun device name in the `route` commands, and the command output: they do not affect the table.
- Concurrency: the code mutates `peerConns` from watch callbacks while `readLocal` reads it, without a lock. The model runs all operations one at a time.
- Logging throughout.
- IPv6: every IPv6 text that `net.ParseCIDR` would accept counts as a parse failure. IPv4 fields with leading zeros are rejected, and prefix lengths with leading zeros are accepted, as in Go 1.17 and later.
- `codec.Host` beyond its `HostAddr` and `Cidr` fields; controller/main.go (process wiring: flags, configuration, storage, watch callbacks) is not part of this model.
