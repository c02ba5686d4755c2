# moneriote, modelled in Dafny

moneriote keeps a DNS name pointing at a small, changing set of public
Monero nodes that answer on the restricted RPC port (18089) and are in step
with the chain. One pass of its engine does four things:

- It learns the chain's current height. The height comes from the local
  daemon, from moneroblocks.info, from xmrchain.net, or from the largest of
  these.
- It re-probes the nodes remembered in a JSON cache file. A node that is
  reachable and at most three blocks behind is valid.
- When few nodes survive, it asks the daemon for its white peer list and
  probes those peers too.
- It writes the surviving nodes back to the cache and reconciles the DNS
  provider's A records with a random choice of at most `max_records` of
  them. The provider is Cloudflare, through its REST API, or TransIP,
  through its signed SOAP API.

Beside the package sit three scripts:

- the older single-file engine (`moneriote.py`), which works on a global
  list of addresses and talks to Cloudflare itself;
- a ban-list tool (`ban.py`), which folds a list of banned addresses into
  `a.b` and `a.b.c` prefixes;
- a seed generator (`seed_nodes_generator.py`), which turns a directory of
  node URLs into a set of addresses.

The model follows the code's own structure, one module per source file.

| module | file | what it holds |
|---|---|---|
| `Values` | values.dfy | decoded JSON and Python values, truthiness, `isinstance(x, int)`, `dict.get` |
| `Strings` | strings.dfy | `str.split`, `join`, `strip`, `splitlines`, `isdigit`, `replace`, as functions with their laws |
| `Utils` | utils.dfy | `moneriote/utils.py`: configuration casting, ban-list parsing, `make_json_request` |
| `Rpc` | rpc.dfy | `moneriote/rpc.py`: `RpcNode` (a value) and `RpcNodeList` (a class with `nodes` and `_addresses` fields), the node probe, the cache file |
| `Engine` | engine.dfy | `moneriote/moneriote.py`: height discovery, scanning, peers, the DNS diff, and the pass as class `Moneriote` |
| `Dns` | dns_provider.dfy | `moneriote/dns/__init__.py`: provider settings and the full domain name |
| `Cloudflare` | cloudflare.dfy | `moneriote/dns/cloudflare.py`: zone selection, the retrying record listing, insertion and deletion |
| `TransIP` | transip.dfy | `moneriote/dns/transip.py`: value conversion, entry equality, the signature message, cookies, and the record set rebuilt on each change |
| `Ban` | ban.dfy | `ban.py`: fetching the ban list and building the prefix filter |
| `Legacy` | legacy.dfy | `moneriote.py`: the older engine as class `LegacyEngine` over its node list |
| `Seeds` | seeds.dfy | `seed_nodes_generator.py`: host extraction and the collected address set |

The outside world is passed in as data:

- HTTP replies arrive as one reply per attempt. A missing attempt is a
  failed request.
- Daemon output arrives as text, and its peer-list regex matches arrive as
  a sequence.
- Probes are functions from a node to the reply it gives.
- The clock, UUIDs and name resolution are parameters.
- Random choices are index sequences, constrained to be permutations or
  samples.

Code that updates state step by step is modelled as methods with loops. A
method is proved against a specification function: the node lists, the
filter loops of `ban.py`, the signature dictionary and the passes. The
properties are then proved about those functions.

## Model

| member | source | states |
|---|---|---|
| Utils.TryCast | moneriote/utils.py:88-93 | a digit string becomes its integer, `true`/`false` in any case become a boolean, anything else stays text; each case exactly when its condition holds |
| Utils.TryCastNumber | moneriote/utils.py:88-90 | the decimal form of any natural number casts back to that number |
| Utils.TryCastFalseIsTrue | moneriote/utils.py:91-92 | a configuration value `false` casts to `True`, because `bool` of a non-empty string is true |
| Utils.CastSection | moneriote/utils.py:95-97 | a missing section gives an empty mapping; otherwise the same keys, each value cast |
| Utils.ParseIni | moneriote/utils.py:81-98 | a missing file exits; otherwise the MoneroDaemon, DNS and BanList sections, cast |
| Utils.StrippedLines | moneriote/utils.py:105-107 | one entry per line of the file, each stripped of surrounding whitespace |
| Utils.ParseBanList | moneriote/utils.py:101-108 | exits exactly when the file is missing; otherwise the stripped lines |
| Utils.BanListRoundTrip | moneriote/utils.py:101-108 | a file written one stripped entry per line parses back to exactly those entries |
| Utils.RequestOptions | moneriote/utils.py:54-61 | `verify` defaults to true, `timeout` to 5, `headers` to a random user agent; explicit headers win; other options pass through |
| Utils.SetDefault | moneriote/utils.py:54-56 | `setdefault` adds the key only when absent and changes no existing entry |
| Utils.MakeJsonRequest | moneriote/utils.py:50-78 | raises exactly when the method is not one of `requests`' HTTP verbs; a failed request or bad status returns `None`; otherwise the decoded body |
| Utils.RequestFailuresReturnNone | moneriote/utils.py:72-78 | any transport failure or non-2xx answer to a GET yields `None`, not an exception |
| Rpc.NewNode | moneriote/rpc.py:104-116 | a new node keeps its address, uid, port, timestamp and extra arguments, and starts out not valid |
| Rpc.IsValid | moneriote/rpc.py:118-144 | raises exactly for a truthy non-dict answer; otherwise only `valid` and `dt` change; `dt` is stamped when empty; the node becomes valid exactly when the height is an int no more than 3 below the reference |
| Rpc.IsValidNeverClears | moneriote/rpc.py:142-144 | a probe never turns a valid node invalid, and leaves the flag alone when the height is not acceptable |
| Rpc.HeightWindow | moneriote/rpc.py:139-143 | a reported height at least the reference minus 3 validates the node, a lower one does not; being ahead is never penalised |
| Rpc.AppendedAddresses | moneriote/rpc.py:23-26 | appending keeps addresses distinct and ends with exactly the old and the new addresses; every node kept comes from the input |
| Rpc.DedupAddresses | moneriote/rpc.py:16-26 | `from_list` keeps exactly the input's addresses, each once |
| Rpc.DedupKeepsFirst | moneriote/rpc.py:16-26 | `from_list` keeps the first node seen for each address, in the order of first appearance |
| Rpc.FilterValidSpec | moneriote/rpc.py:28-30 | `valid(v)` keeps exactly the nodes whose flag is `v`, and their addresses stay distinct |
| Rpc.DedupOfDistinct | moneriote/rpc.py:28-30 | rebuilding a list whose addresses are already distinct changes nothing |
| Rpc.Permute | moneriote/rpc.py:36-37 | a shuffle moves the node at `p[i]` to position `i` and keeps exactly the same nodes (equal multisets) |
| Rpc.PermutedMultiset | moneriote/rpc.py:36-37 | any reordering by a permutation of the indices keeps the multiset of elements |
| Rpc.CacheEntries | moneriote/rpc.py:56-65 | the cache holds one address/port/dt entry per valid node, in list order |
| Rpc.ItemNode | moneriote/rpc.py:95-98 | a cache entry becomes a fresh, not-valid node with its address and timestamp |
| Rpc.EntryItems | moneriote/rpc.py:61-65 | each written entry is read back as an item with the same fields |
| Rpc.ItemNodesOfEntries | moneriote/rpc.py:56-101 | reading written entries back gives the valid nodes, reset to not valid |
| Rpc.CacheReadSpec | moneriote/rpc.py:75-101 | what `cache_read` returns for a file: empty for an unreadable or non-list file, an exception for an unparsable `dt`, else the item nodes deduplicated; CacheRoundTrip proves its round trip |
| Rpc.CacheRoundTrip | moneriote/rpc.py:56-101 | `cache_read` after `cache_write` returns the valid nodes of the list, in order, reset to not valid |
| Rpc.AppendedSnoc | moneriote/rpc.py:23-26 | appending one more node adds it exactly when its address is new |
| Rpc.RpcNodeList.constructor | moneriote/rpc.py:12-14 | a new list is empty and consistent |
| Rpc.RpcNodeList.Append | moneriote/rpc.py:23-26 | a node whose address is present changes nothing; otherwise it goes at the end of both fields |
| Rpc.RpcNodeList.AppendAll | moneriote/rpc.py:45-48 | adding a list appends, in order, the nodes whose address is not yet present |
| Rpc.RpcNodeList.FromList | moneriote/rpc.py:16-21 | `from_list` builds the first-occurrence deduplication of its input |
| Rpc.RpcNodeList.Contains | moneriote/rpc.py:42-43 | `in` holds exactly when some node has that address |
| Rpc.RpcNodeList.Length | moneriote/rpc.py:53-54 | the length is the number of nodes, equal to the number of addresses |
| Rpc.RpcNodeList.ValidNodes | moneriote/rpc.py:28-30 | returns a fresh list of exactly the nodes whose flag is `v` |
| Rpc.RpcNodeList.AddList | moneriote/rpc.py:45-51 | `+=` with a list appends its new-address nodes and returns the same list |
| Rpc.RpcNodeList.AddNode | moneriote/rpc.py:49-51 | `+=` with a node appends it when its address is new and returns the same list |
| Rpc.RpcNodeList.Shuffle | moneriote/rpc.py:36-37 | the nodes are permuted, keeping the same nodes (equal multisets); the address list is untouched, and the list stays consistent |
| Rpc.RpcNodeList.CacheWrite | moneriote/rpc.py:56-73 | writes the entries of the valid nodes, or raises when the file cannot be written |
| Rpc.RpcNodeList.CacheRead | moneriote/rpc.py:75-101 | an unreadable or non-list file gives an empty list; an entry with an unparsable `dt` raises; entries with an address become nodes, deduplicated |
| Engine.Greater | moneriote/moneriote.py:179-180 | `>` between collected heights is numeric for ints and bools; only ints with ints or strings with strings compare |
| Engine.MaxOf | moneriote/moneriote.py:179-180 | `max` returns one of the collected values, or raises on incomparable ones |
| Engine.MaxOfInts | moneriote/moneriote.py:179-180 | on integer heights, `max` is at least every collected height |
| Engine.FirstDict | moneriote/moneriote.py:145-157 | the moneroblocks loop stops at the first answer that is a dict, within six attempts |
| Engine.XcAttemptOf | moneriote/moneriote.py:164-168 | an xmrchain answer succeeds only with status `success` and an int height; one with a non-int height still stores it |
| Engine.FirstXcOk | moneriote/moneriote.py:159-177 | the xmrchain loop stops at the first successful answer, within six attempts |
| Engine.ReadDaemonHeight | moneriote/moneriote.py:136-140 | a daemon height is the digits of the first output line |
| Engine.CollectedValues | moneriote/moneriote.py:131-180 | one value per source that stored a height |
| Engine.HeightSpec | moneriote/moneriote.py:124-181 | what `monerod_get_height` returns for a mode, the daemon output and the moneroblocks and xmrchain replies; CompareTakesMaximum, XmrchainMode and MonerodModeIntended state its properties |
| Engine.HeightAsWritten | moneriote/moneriote.py:135-143 | as written, the height is the one computed with the daemon never asked |
| Engine.MonerodModeAsWritten | moneriote/moneriote.py:135-143 | as written, `monerod` mode never consults the daemon and returns `None` |
| Engine.MonerodModeCounterexample | moneriote/moneriote.py:135-143 | a daemon printing `1234` yields `None` as written and 1234 as intended |
| Engine.DaemonPrints1234 | moneriote/moneriote.py:140 | the output `1234\n` reads as height 1234 |
| Engine.MonerodModeIntended | moneriote/moneriote.py:135-143 | with the daemon test corrected, `monerod` mode returns the daemon's height |
| Engine.XmrchainMode | moneriote/moneriote.py:159-177 | `xmrchain` mode returns the first successful height, or the last stored value when none succeeds |
| Engine.CompareTakesMaximum | moneriote/moneriote.py:124-181 | `compare` returns an int at least both the moneroblocks and the xmrchain height |
| Engine.ScanAll | moneriote/moneriote.py:86-111 | the pool probes every node in order; the scan raises exactly when one probe raises; addresses are unchanged |
| Engine.ScannedValid | moneriote/moneriote.py:108-111 | with `remove_invalid`, only valid nodes from the input remain, with distinct addresses |
| Engine.WhitePeers | moneriote/moneriote.py:193-198 | each peer node is a fresh node for the address of a white match |
| Engine.PeersSpec | moneriote/moneriote.py:183-201 | what `monerod_get_peers` returns: nothing without daemon output, else the white peers once each; PeersAreWhite and WhitePeersHas state its properties |
| Engine.PeersAreWhite | moneriote/moneriote.py:183-201 | the peer list has distinct addresses, holds only fresh nodes of white peers on port 18089, and is non-empty when there is output and a white peer |
| Engine.WhitePeersHas | moneriote/moneriote.py:193-198 | every white peer's address is in the list |
| Engine.Adds | moneriote/moneriote.py:76-79 | only chosen nodes missing from DNS are added, at most one per chosen node |
| Engine.DeletesListed | moneriote/moneriote.py:81-84 | the delete loop only issues deletions, and only of records the provider listed |
| Engine.AddsExactly | moneriote/moneriote.py:76-79 | every chosen node missing from DNS is added |
| Engine.DnsDiff | moneriote/moneriote.py:72-84 | the provider calls of one pass: adds for the first `max_records` shuffled nodes, then deletes over the fetched records; AddsExactly, DeletesExactly and SteadyState state its properties |
| Engine.DeletesExactly | moneriote/moneriote.py:81-84 | a record is deleted exactly when its node is not in the list or it sits at index `max_records` or later |
| Engine.NoNodesDeletesAll | moneriote/moneriote.py:81-84 | with no nodes, every record is deleted and nothing is added |
| Engine.AddsBounded | moneriote/moneriote.py:72-79 | at most `max_records` records are added |
| Engine.PickedNodesPublished | moneriote/moneriote.py:72-84 | a chosen node is published afterwards, unless its existing record sits at index `max_records` or later; then it is deleted and not re-added |
| Engine.RecordGone | moneriote/moneriote.py:81-84 | a deleted record's address is absent afterwards |
| Engine.OnlyListedNodesRemain | moneriote/moneriote.py:72-84 | afterwards DNS names only nodes of the list, and no record at index `max_records` or later survives |
| Engine.NoAdds | moneriote/moneriote.py:76-79 | when every chosen node is already published, nothing is added |
| Engine.SteadyState | moneriote/moneriote.py:72-84 | when DNS already holds exactly the chosen nodes, within `max_records`, the pass changes nothing |
| Engine.NoDeletes | moneriote/moneriote.py:81-84 | records within the limit whose nodes are chosen are not deleted |
| Engine.Survivors | moneriote/moneriote.py:60-63 | the cached nodes that survive the first scan, or the exception; PassNodesValid states their validity |
| Engine.PassSpec | moneriote/moneriote.py:52-84 | one pass of `main`, with the corrected height discovery: a pass whose `get_records` gave `None` never completes; HeightGate, PeersOnlyWhenFew and NoValidNodesClearsDns state its other properties |
| Engine.HeightGate | moneriote/moneriote.py:52-58 | the pass stops early exactly when the height is falsy or not an int; a completed pass had a usable height |
| Engine.PassNodesValid | moneriote/moneriote.py:60-67 | every node of the pass is valid, and their addresses are distinct |
| Engine.WithPeersValid | moneriote/moneriote.py:65-67 | adding the scanned peers keeps every node valid and addresses distinct |
| Engine.AppendValid | moneriote/moneriote.py:65-67 | appending valid nodes to valid, distinct nodes keeps both properties |
| Engine.PeersOnlyWhenFew | moneriote/moneriote.py:60-70 | peers are asked for exactly when at most two cached nodes survive; the cache is written exactly when nodes remain; with more survivors they are the result |
| Engine.NoValidNodesClearsDns | moneriote/moneriote.py:60-84 | when no valid node remains, every DNS record is deleted |
| Engine.Moneriote.constructor | moneriote/moneriote.py:27-42 | the settings are kept and no height is known yet |
| Engine.Moneriote.Create | moneriote/moneriote.py:27-38 | exits exactly for a height method outside the four known ones |
| Engine.Moneriote.PollMoneroblocks | moneriote/moneriote.py:145-157 | the moneroblocks loop yields the height of its first dict answer, after that many requests and never more than six |
| Engine.Moneriote.PollXmrchain | moneriote/moneriote.py:159-177 | the xmrchain loop succeeds exactly when some answer is good, and then returns its height; requests never exceed six |
| Engine.Moneriote.MonerodGetHeight | moneriote/moneriote.py:124-181 | the corrected height discovery; a source is only queried in the modes that use it, at most six times |
| Engine.Moneriote.Scan | moneriote/moneriote.py:86-111 | an empty list is returned as is; otherwise the scanned list, valid nodes only when asked, or the exception |
| Engine.Moneriote.MonerodGetPeers | moneriote/moneriote.py:183-201 | builds the white-peer list, empty without output |
| Engine.Moneriote.Reconcile | moneriote/moneriote.py:72-84 | issues exactly the DNS diff's insertions, then its deletions |
| Engine.Moneriote.AddMissing | moneriote/moneriote.py:76-79 | the insertion loop issues the adds of the chosen nodes missing from DNS |
| Engine.Moneriote.DeleteStale | moneriote/moneriote.py:81-84 | the deletion loop issues the deletes of stale or surplus records |
| Engine.Moneriote.Refresh | moneriote/moneriote.py:60-67 | the node list after the cache re-scan and the optional peer scan; peers are asked exactly when at most two survive |
| Engine.Moneriote.LoadCached | moneriote/moneriote.py:60-63 | the cached nodes that survive a re-scan, or the exception |
| Engine.Moneriote.AddPeers | moneriote/moneriote.py:65-67 | the valid scanned peers are appended to the list |
| Engine.Moneriote.Run | moneriote/moneriote.py:52-84 | one pass of `main`, with the corrected height discovery, follows the pass specification, and the height is stored only when usable |
| Dns.NewProvider | moneriote/dns/__init__.py:5-11 | construction fails exactly without a domain name, API key or API e-mail; those are kept as given |
| Dns.ProviderDefaults | moneriote/dns/__init__.py:7-10 | the subdomain defaults to `node` and `max_records` to 5; given values win |
| Dns.FullDomainNameParts | moneriote/dns/__init__.py:13-15 | the full name splits at its first dot into the subdomain and the domain |
| Cloudflare.SelectZone | moneriote/dns/cloudflare.py:20-29 | the constructor's zone lookup over the listing body: raises when `result` is missing or is a non-empty dictionary, a non-empty string or another non-list; exits when no zone matches; otherwise the first match; ZoneSelection states its cases |
| Cloudflare.FirstZone | moneriote/dns/cloudflare.py:24-28 | the zone id is that of the first zone named like the domain; no zone matches exactly when every zone is a dict with another name |
| Cloudflare.ListingBody | moneriote/dns/cloudflare.py:23 | a GET never raises and returns the listing body |
| Cloudflare.ZoneSelection | moneriote/dns/cloudflare.py:20-29 | a failed listing raises, an empty zone list exits, and the first of two matching zones wins |
| Cloudflare.FirstBad | moneriote/dns/cloudflare.py:45-50 | the record loop runs up to the first record that is not a dict |
| Cloudflare.MatchingFromRecord | moneriote/dns/cloudflare.py:45-50 | every node taken comes from an A record of the full domain name, with its content and id |
| Cloudflare.Fetch | moneriote/dns/cloudflare.py:36-59 | the retry loop of `get_records` from attempt `k`, with the nodes gathered so far kept across attempts; FetchNone and FetchFiltered state its properties |
| Cloudflare.GetRecordsSpec | moneriote/dns/cloudflare.py:31-59 | `get_records` answered by a sequence of listings; GetRecordsContract states its contract |
| Cloudflare.FetchNone | moneriote/dns/cloudflare.py:36-59 | `get_records` gives up exactly when none of the six attempts completes |
| Cloudflare.FetchFiltered | moneriote/dns/cloudflare.py:31-59 | the nodes returned have distinct addresses and each comes from an A record of the full name in some attempt |
| Cloudflare.GetRecordsContract | moneriote/dns/cloudflare.py:31-59 | `None` exactly after six failed attempts; otherwise fresh nodes with distinct addresses from matching A records |
| Cloudflare.PartialAttemptKept | moneriote/dns/cloudflare.py:36-59 | nodes appended before an attempt fails are still in the list after a later attempt completes |
| Cloudflare.AddRecordNeverRaises | moneriote/dns/cloudflare.py:62-74 | the insertion request never raises, so `add_record` returns normally whatever the answer |
| Cloudflare.DeleteOutcome | moneriote/dns/cloudflare.py:76-86 | a result is returned only for a successful answer whose `success` is the boolean `True`, and such an answer returns the body's `result` |
| Cloudflare.DeleteNeedsTrue | moneriote/dns/cloudflare.py:80-86 | `success: 1` and a 404 answer give `None`; `success: true` gives the result |
| Cloudflare.CloudflareProvider.constructor | moneriote/dns/cloudflare.py:8-18 | the provider settings and the zone id are kept |
| Cloudflare.CloudflareProvider.Create | moneriote/dns/cloudflare.py:8-29 | a provider exists exactly when a zone was found, and carries that zone's id |
| Cloudflare.CloudflareProvider.InsertedRecordListed | moneriote/dns/cloudflare.py:62-72 | the record an insertion creates is read back by `get_records` as the inserted address, with the record's id |
| Cloudflare.CloudflareProvider.GetRecords | moneriote/dns/cloudflare.py:31-59 | the retrying listing returns the specified node list, or `None`, after at most six requests |
| Cloudflare.CloudflareProvider.AppendRecords | moneriote/dns/cloudflare.py:42-52 | one attempt appends the matching records up to the first bad one, and completes exactly when none is bad |
| Cloudflare.CloudflareProvider.DeleteRecord | moneriote/dns/cloudflare.py:76-86 | `delete_record` returns the deletion outcome of the answer |
| TransIP.ConvertValue | moneriote/dns/transip.py:40-53 | the value sent to the API is never `None` or a boolean |
| TransIP.ConvertValueContract | moneriote/dns/transip.py:40-53 | `True` becomes 1, every false value becomes the empty string, others pass; no `None` or boolean is left; converting is idempotent |
| TransIP.EntryEquals | moneriote/dns/transip.py:64-67 | two objects compare equal only when both have name, type and content and these agree |
| TransIP.EntryEqualsContract | moneriote/dns/transip.py:64-67 | entries compare by name, type and content, never by expiry, symmetrically; an object missing an attribute is unequal even to itself |
| TransIP.Put | moneriote/dns/transip.py:136-147 | an OrderedDict assignment keeps an existing key in place and appends a new key |
| TransIP.PutAllKeys | moneriote/dns/transip.py:126-147 | the signature dictionary never holds a key twice and holds exactly the keys assigned |
| TransIP.PutAllFresh | moneriote/dns/transip.py:143-147 | new, distinct keys are appended in assignment order |
| TransIP.SignatureOrder | moneriote/dns/transip.py:117-149 | the message lists every key once: first the parameters' entries, keyed by parameter index, then `__method`, `__service`, `__hostname`, `__timestamp` and `__nonce` |
| TransIP.NoPlusAfterReplace | moneriote/dns/transip.py:149-153 | the signed message contains no `+`; spaces end up as `%20` |
| TransIP.CookieParts | moneriote/dns/transip.py:157-159 | one `k=v` part per cookie, in order |
| TransIP.CookieSplits | moneriote/dns/transip.py:155-162 | the Cookie header splits back at `;` into the `k=v` parts |
| TransIP.CookiesSpec | moneriote/dns/transip.py:164-193 | six cookies, the nonce first, at most 32 characters of the UUID; `None` when signing raises |
| TransIP.EntryNode | moneriote/dns/transip.py:221-222 | a listed entry becomes a fresh node with its content as address on port 18089 |
| TransIP.ListedExactly | moneriote/dns/transip.py:208-223 | without `all_records` exactly the A entries of the subdomain are listed; with it, every `DnsEntry` |
| TransIP.NodeToEntry | moneriote/dns/transip.py:200-206 | a node becomes an entry with its address as content; name, expiry and type default to the subdomain, 60 and `A` |
| TransIP.EntryRoundTrip | moneriote/dns/transip.py:200-222 | a listed entry converted back is the same entry |
| TransIP.FreshNodeEntry | moneriote/dns/transip.py:200-206 | an engine node becomes an A record of the subdomain expiring after 60 seconds |
| TransIP.AddRecordSet | moneriote/dns/transip.py:225-228 | corrected: the set an insertion submits, every existing record then the node's; RecordSetsPreserve states it |
| TransIP.DeleteRecordSet | moneriote/dns/transip.py:230-233 | corrected: the set a deletion submits, every existing record not pointing at the node; RecordSetsPreserve states it |
| TransIP.RecordSetsPreserve | moneriote/dns/transip.py:225-233 | corrected: an insertion submits every existing record plus the node's; a deletion submits exactly the records not pointing at the node |
| TransIP.SharedAddressListing | moneriote/dns/transip.py:208-226 | listing two records with one address keeps only the first |
| TransIP.AddRecordAsWritten | moneriote/dns/transip.py:225-228 | as written, the submitted set ends with the new node's entry after the deduplicated listing; AddRecordDropsSharedAddress shows the loss |
| TransIP.DeleteRecordAsWritten | moneriote/dns/transip.py:230-233 | as written, the submitted set is the deduplicated listing without the node; DeleteRecordDropsSharedAddress shows the loss |
| TransIP.AddRecordDropsSharedAddress | moneriote/dns/transip.py:225-228 | as written, adding a node drops a `www` record sharing the apex's address |
| TransIP.DeleteRecordDropsSharedAddress | moneriote/dns/transip.py:230-233 | as written, deleting an unrelated node drops that `www` record too |
| TransIP.TransIPProvider.constructor | moneriote/dns/transip.py:75-81 | the provider settings are kept and no cookie is set |
| TransIP.TransIPProvider.BuildSignatureMessage | moneriote/dns/transip.py:117-153 | the dictionary filled is the specified signature dictionary, and the message is its encoding after the replacements |
| TransIP.TransIPProvider.PutParam | moneriote/dns/transip.py:128-142 | one parameter's entries are assigned in order |
| TransIP.TransIPProvider.PutElems | moneriote/dns/transip.py:129-136 | a list parameter's SOAP objects contribute their fields, other elements nothing |
| TransIP.TransIPProvider.PutFields | moneriote/dns/transip.py:134-140 | each field is assigned under `prefix[key]`, converted |
| TransIP.TransIPProvider.UpdateCookie | moneriote/dns/transip.py:155-162 | the Cookie header becomes the `k=v` parts joined by `;` |
| TransIP.TransIPProvider.BuildCookie | moneriote/dns/transip.py:164-193 | builds the specified cookies from the clock, the signature and the login |
| TransIP.TransIPProvider.SimpleRequest | moneriote/dns/transip.py:195-198 | sets the header for the call, or raises with the header unchanged when signing fails |
| TransIP.TransIPProvider.GetRecords | moneriote/dns/transip.py:208-223 | after the `getInfo` cookie is set, the listed entries as nodes, one per address |
| TransIP.TransIPProvider.ListNodes | moneriote/dns/transip.py:214-223 | the listing loop builds the deduplicated nodes of the kept entries |
| TransIP.TransIPProvider.AddRecord | moneriote/dns/transip.py:225-228 | corrected: submits every existing record plus the node's; raises when either call cannot be signed |
| TransIP.TransIPProvider.DeleteRecord | moneriote/dns/transip.py:230-233 | corrected: submits every existing record not pointing at the node |
| TransIP.TransIPProvider.ListAll | moneriote/dns/transip.py:226 | every `DnsEntry` of the listing, as an entry, in order |
| Ban.GetBanList | ban.py:7-25 | a 200 answer with text gives its stripped lines; any failure gives an empty list |
| Ban.Mask | ban.py:33 | the mask is a prefix of the address ending just before a dot or at its end |
| Ban.F16Exact | ban.py:32-41 | an `a.b` prefix enters the filter exactly when it occurs at least four times, and only once |
| Ban.BuildFilter | ban.py:28-63 | the filter is the frequent `a.b` prefixes, then the `a.b.c` prefixes, then the uncovered addresses; no entry twice; every banned address is covered |
| Ban.CountMask16 | ban.py:32-41 | the first loop builds exactly the frequent `a.b` prefixes |
| Ban.CountMask16Entry | ban.py:33-41 | one step of the first loop keeps the filter equal to the prefixes met four times and each counter one below its count, capped at 2 |
| Ban.CountMask24 | ban.py:42-54 | the second loop appends distinct `a.b.c` prefixes, each met at least four times outside the listed `a.b` prefixes |
| Ban.CountMask24Entry | ban.py:43-54 | one step of the second loop keeps its counters and the filter consistent |
| Ban.AddSingles | ban.py:55-61 | the third loop appends each address not yet covered, so every address ends up covered |
| Legacy.ScanNode | moneriote.py:166-190 | the verdict is for the probed address; it is valid exactly when the height is within 3 blocks either way; other errors raise |
| Legacy.ScanNodeWindow | moneriote.py:179-185 | a height string within 3 blocks of the reference is valid, one further ahead is not |
| Legacy.ScanNodeFailures | moneriote.py:175-190 | a failed request or bad JSON gives an invalid verdict; an int height or a missing one raises |
| Legacy.ScanAll | moneriote.py:209-213 | one verdict per address, in order |
| Legacy.RemoveFirst | moneriote.py:219-220 | `remove` drops one occurrence |
| Legacy.AppliedMembership | moneriote.py:215-220 | after the verdicts, an address is listed exactly when its last verdict says valid, or it was listed and had no verdict; no address twice |
| Legacy.RemoveDistinct | moneriote.py:219-220 | removing from a distinct list removes exactly that address |
| Legacy.LoadedPeersExactly | moneriote.py:149-164 | the new peers are the white matches not yet known and not `0.0.0.0` |
| Legacy.Picked | moneriote.py:238-243 | three distinct nodes are sampled when there are more than three, else all |
| Legacy.DnsUpdate | moneriote.py:237-297 | the requests of `update_dns_records`: none after a failed or unsuccessful listing, else the creations then the deletions; CreatesExactly, DeletesExactly and LegacyDnsConverges state its properties |
| Legacy.CreatesExactly | moneriote.py:254-274 | a record is created exactly for each picked node without a record of the domain |
| Legacy.DeletesExactly | moneriote.py:276-293 | exactly the domain's records whose content is not picked are deleted |
| Legacy.LegacyDnsConverges | moneriote.py:237-293 | afterwards the domain points at exactly the picked nodes |
| Legacy.UnsuccessfulListingChangesNothing | moneriote.py:247-297 | a failed listing or `success: false` issues nothing; `success: 1` counts as success |
| Legacy.ReadDaemon | moneriote.py:100-106 | the daemon gives no height exactly when its output starts with `Error` |
| Legacy.FirstDecoded | moneriote.py:113-137 | the reference height is found exactly when some attempt decodes |
| Legacy.HeightSpec | moneriote.py:92-147 | what `blockchain_height` yields; it keeps retrying only with xmrchain enabled and no attempt decoded |
| Legacy.HeightChoice | moneriote.py:92-147 | with both heights the larger wins; without a daemon height the result is `None` |
| Legacy.DaemonOnly | moneriote.py:97-147 | without the reference, the daemon height is returned as read |
| Legacy.DaemonError | moneriote.py:100-106 | an `Error` output gives no height; empty output raises |
| Legacy.FirstDecodedAt | moneriote.py:113-137 | the first decoding attempt gives the reference height |
| Legacy.PassSpec | moneriote.py:300-327 | one `check_all_nodes` pass from a node list: the outcome and the list it leaves; DnsOnlyWithNodes and PassNodesDistinct state its properties |
| Legacy.DnsOnlyWithNodes | moneriote.py:318-322 | DNS is updated exactly when nodes remain, and only picked nodes are created |
| Legacy.PassNodesDistinct | moneriote.py:300-322 | the node list stays free of duplicates through a pass |
| Legacy.ScanPhase | moneriote.py:203-234 | one `start_scanning_threads` call with a fresh height: it stops on a raising or retrying height, a raising probe or a failed write, else continues with the verdicts applied |
| Legacy.ScanPhaseDistinct | moneriote.py:311-316 | a scan phase keeps the node list free of duplicates |
| Legacy.LegacyEngine.constructor | moneriote.py:11-44 | the settings are kept and the node list starts empty |
| Legacy.LegacyEngine.BlockchainHeight | moneriote.py:92-147 | the height loop yields the specified height, or keeps retrying |
| Legacy.LegacyEngine.ApplyScanResults | moneriote.py:215-220 | the node list becomes the verdicts applied in order |
| Legacy.LegacyEngine.StartScanningThreads | moneriote.py:203-229 | a raising probe leaves the list unchanged; otherwise the verdicts are applied, and a failed write raises |
| Legacy.LegacyEngine.LoadNodes | moneriote.py:149-164 | returns the new white peers |
| Legacy.LegacyEngine.HasRecord | moneriote.py:255-259 | the search loop finds a record of the domain with that content |
| Legacy.LegacyEngine.IsPicked | moneriote.py:278-282 | the search loop finds the content among the picked nodes |
| Legacy.LegacyEngine.UpdateDnsRecords | moneriote.py:237-297 | issues the creations and deletions for the sampled nodes |
| Legacy.LegacyEngine.RunScanPhase | moneriote.py:311-316 | one scan phase of the pass, with the list it leaves |
| Legacy.LegacyEngine.CheckAllNodes | moneriote.py:300-327 | one pass follows the pass specification, outcome and node list together |
| Seeds.Host | seed_nodes_generator.py:6-11 | the resolved host never contains `:` |
| Seeds.HostPort | seed_nodes_generator.py:10-11 | `host:port` with a numeric port gives back the host |
| Seeds.HostOfUrl | seed_nodes_generator.py:6-11 | `scheme://host:port` and `host:port` both give the host |
| Seeds.SeedSetExactly | seed_nodes_generator.py:19-28 | an address is collected exactly when some URL ending in `18089` resolves to it |
| Seeds.CollectSeeds | seed_nodes_generator.py:23-28 | the loop collects exactly the specified set; it has no `None` and no duplicates |

## Left out

- Engine.Moneriote.Run / Engine.PassSpec: the pass uses the corrected height discovery. As written, `monerod` mode never gets a height, so `main` returns at once, and `compare` mode never asks the daemon. The as-written height is `Engine.HeightAsWritten`; see Findings.
- Engine.Moneriote.MonerodGetHeight: the method follows the corrected daemon test (membership in `['compare', 'monerod']`), not the line as written. The as-written behaviour is `Engine.HeightAsWritten`; see Findings.
- TransIP.TransIPProvider.AddRecord and TransIP.TransIPProvider.DeleteRecord: both submit the corrected record set, not the deduplicated one. The as-written sets are `TransIP.AddRecordAsWritten` and `TransIP.DeleteRecordAsWritten`; see Findings.
- Ban.BuildFilter: an `a.b.c` prefix met four times outside the listed `a.b` prefixes is appended, but that converse is stated as a count bound on the appended prefixes only.
- Engine.Moneriote.Scan: requires an integer reference height. `main` only calls it after checking this, so other heights never reach it.
- Network, files, subprocesses, the clock, UUIDs, randomness and name resolution are inputs. Requests' URLs, headers and timeouts are not modelled.
- Logging, `print`, `banner` and `sys.exit` messages are not modelled. An exit is an outcome.
- The multiprocessing pool is modelled as a sequential map. Each node is probed once, and the results come back in order.
- The cache file's JSON is a sequence of typed items. Non-string addresses and non-int ports are not modelled. An unparsable `dt` is a predicate that raises.
- `monerod_check` and the auto-creation of the cache file in the constructor are not modelled. Both only touch the outside world or exit.
- A `None` from the provider's `get_records` makes `main` raise. This is modelled as the pass raising, with no DNS change.
- An exception raised by a provider's `add_record` or `delete_record` inside `main` is not modelled. The pass records the calls it issues.
- `valid_cf` is not modelled. Nothing in the package calls it, and nodes have no `cf_id`.
- The base `DnsProvider`'s `get_records`, `add_record` and `delete_record` only raise `NotImplementedError`. Each provider overrides them.
- `str.isdigit` is modelled for ASCII digits only. `splitlines` is modelled for `\n` line ends; a lone `\r` is not modelled.
- Ban.GetBanList, Utils.StrippedLines, Engine.ReadDaemonHeight and Legacy.ReadDaemon: `strip` removes ASCII whitespace only, and lines end only at `\n`. Python's `strip` also removes Unicode spaces such as `\xa0` and `\u3000`, and `splitlines` also breaks at `\v`, `\f`, `\x1c`-`\x1e`, `\x85`, `\u2028` and `\u2029`. Those inputs are not modelled.
- Utils.MakeJsonRequest: only the seven HTTP verbs count as known methods. Another attribute of the `requests` module (such as `request` or `session`) is treated as unknown and raises, where the source calls it, catches the `TypeError` and returns `None`. No caller passes such a name.
- `max` over lists or dicts raises in the model. Python would compare lists with lists, but heights are never lists.
- Cloudflare records with a non-string content are not modelled. The listing is typed, and contents are strings.
- The legacy `_daemon_command` calls `.decode` on a string, so it would raise. Its output is an input of the model.
- The legacy DNS listing is typed. A listing without `success` or `result` keys, which would raise `KeyError`, is not modelled.
- Legacy.DnsUpdate and Legacy.LegacyEngine.UpdateDnsRecords: the answers to the create and delete requests are not modelled. In the source, an answer that is not a dictionary or has no `success` key raises `KeyError` or `TypeError`, which is not caught. The remaining requests are then not issued, and the exception ends the script.
- Legacy.LegacyEngine.CheckAllNodes and Legacy.PassSpec: a pass that reaches DNS issues every request. An uncaught `KeyError` or `TypeError` on a create or delete answer, which ends the source's pass and its loop, is not modelled.
- `random.sample` is given as index sequences required to be samples.
- The order in which the legacy engine's write failure builds its message is not modelled. Adding a string to an exception raises `TypeError`, and that is the modelled outcome.
- TransIP: the RSA signature and `urlencode`'s percent-encoding are given as functions. The SOAP transport and the `setDnsEntries` answer are not modelled. Only the submitted record set and the cookie are.
- Seeds: the directory fetch and the JSON keys `monero`/`clear` are inputs. The order of `list(ip_list)` in the written file is Python's set order, which is not modelled.
- `moneriote/main.py` (command-line wiring and the scan interval loop) is not part of this model.

## Findings

| source | as written | input that shows it | evidently intended | confidence | as-written member | corrected member |
|---|---|---|---|---|---|---|
| moneriote/moneriote.py:135 | `method == ['compare', 'monerod']` compares a string with a list, so it is never true and the daemon is never asked | `md_height_discovery_method = 'monerod'` with a daemon printing `1234`: the height is `None` and `main` gives up | `method in ['compare', 'monerod']`: `monerod` mode returns 1234, and `compare` includes the daemon height | high; not executed | Engine.MonerodModeCounterexample | Engine.MonerodModeIntended |
| moneriote/dns/transip.py:226,231 | the record set is rebuilt from `get_records(all_records=True)`, which keeps one node per address | records `@` and `www` both pointing at one address, then `add_record` of another node: the submitted set has no `www` record, so TransIP deletes it | submit every existing record (plus the new one, or minus the node's) | medium; not executed | TransIP.AddRecordDropsSharedAddress | TransIP.RecordSetsPreserve |
