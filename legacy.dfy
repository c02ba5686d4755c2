/** The single-file engine (moneriote.py): scan nodes against a window around
    the reference height, keep the usable ones in `currentNodes` across passes,
    and point a Cloudflare name at up to three of them. The module-level
    globals it reads become the fields and parameters of `LegacyEngine`. */
module Legacy {
  import opened Values
  import opened Strings
  import Engine

  /** `_acceptableBlockOffset`: how far either side of the reference height a
      node may be. */
  const AcceptableBlockOffset: int := 3
  /** `max_retries` in `blockchain_height`. */
  const MaxRetries: nat := 5
  /** How many nodes `update_dns_records` picks when it has more. */
  const PickCount: nat := 3

  // ---------------------------------------------------------------------------
  // scan_node

  /** What a `GET http://<address>:18089/getheight` gave: a failed request or
      non-2xx status, a body that is not JSON, or the decoded body. */
  datatype ScanReply = ScanRequestFailed | ScanNotJson | ScanBlob(blob: Value)

  /** The dictionary `scan_node` returns. */
  datatype Verdict = Verdict(address: string, valid: bool)

  /** `scan_node(accepted_height, address)`; `None` where it raises (a body
      that is not a dictionary, a height that is not a digit string, or no
      reference height to subtract). */
  function ScanNode(accepted: Option<int>, address: string, reply: ScanReply): (r: Option<Verdict>)
    ensures r.Some? ==> r.value.address == address
  {
    match reply
    case ScanRequestFailed => Some(Verdict(address, false))
    case ScanNotJson => Some(Verdict(address, false))
    case ScanBlob(blob) =>
      if !blob.Dict? then None
      else
        var h := Get(blob, "height", Str("")).value;
        if !(h.Str? && IsDigits(h.s)) || accepted.None? then None
        else
          var diff := DigitsValue(h.s) - accepted.value;
          Some(Verdict(address, AcceptableBlockOffset >= diff >= -AcceptableBlockOffset))
  }

  /** A node is accepted exactly when it reports a digit height no more than
      three blocks from the reference either way; a node more than three
      blocks ahead is rejected. */
  lemma ScanNodeWindow(accepted: int, address: string, height: nat)
    ensures ScanNode(Some(accepted), address, ScanBlob(Dict(map["height" := Str(ShowNat(height))])))
         == Some(Verdict(address, accepted - 3 <= height <= accepted + 3))
    ensures height > accepted + 3 ==>
      ScanNode(Some(accepted), address, ScanBlob(Dict(map["height" := Str(ShowNat(height))]))).value.valid == false
  {
    ShowNatRoundTrip(height);
  }

  /** A failed request or an undecodable body never raises: the node is
      reported invalid. A height that is not a digit string raises. */
  lemma ScanNodeFailures(accepted: Option<int>, address: string, blob: Value)
    ensures ScanNode(accepted, address, ScanRequestFailed) == Some(Verdict(address, false))
    ensures ScanNode(accepted, address, ScanNotJson) == Some(Verdict(address, false))
    ensures blob.Dict? && "height" in blob.entries && blob.entries["height"].Int? ==>
      ScanNode(accepted, address, ScanBlob(blob)).None?
    ensures ScanNode(accepted, address, ScanBlob(Dict(map[]))).None?
  {
  }

  /** `pool.map(partial(scan_node, height), addresses)` run in sequence;
      `None` when any call raises. */
  function ScanAll(accepted: Option<int>, addresses: seq<string>, probe: string -> ScanReply): (r: Option<seq<Verdict>>)
    ensures r.Some? ==> |r.value| == |addresses| && forall i :: 0 <= i < |addresses| ==> r.value[i].address == addresses[i]
  {
    if |addresses| == 0 then Some([])
    else
      var init := ScanAll(accepted, addresses[..|addresses| - 1], probe);
      var last := ScanNode(accepted, addresses[|addresses| - 1], probe(addresses[|addresses| - 1]));
      if init.None? || last.None? then None else Some(init.value + [last.value])
  }

  // ---------------------------------------------------------------------------
  // start_scanning_threads

  /** `list.remove(x)`: drop the first occurrence. */
  function RemoveFirst(s: seq<string>, x: string): (r: seq<string>)
    requires x in s
    ensures |r| == |s| - 1
    ensures multiset(r) == multiset(s) - multiset{x}
  {
    assert s == [s[0]] + s[1..];
    if s[0] == x then s[1..]
    else [s[0]] + RemoveFirst(s[1..], x)
  }

  /** The node list after the response loop of `start_scanning_threads`. */
  function Applied(current: seq<string>, response: seq<Verdict>): seq<string>
  {
    if |response| == 0 then current
    else
      var prev := Applied(current, response[..|response| - 1]);
      var v := response[|response| - 1];
      if v.valid && v.address !in prev then prev + [v.address]
      else if !v.valid && v.address in prev then RemoveFirst(prev, v.address)
      else prev
  }

  /** Whether `a` is usable after the verdicts: the last verdict about it, or
      `before` when there is none. */
  function LastVerdict(a: string, response: seq<Verdict>, before: bool): bool
  {
    if |response| == 0 then before
    else if response[|response| - 1].address == a then response[|response| - 1].valid
    else LastVerdict(a, response[..|response| - 1], before)
  }

  /** The update keeps the list free of repeats, and an address is in it
      afterwards exactly when the last verdict about it was valid (or, with
      none, when it was in it before). */
  lemma {:induction false} AppliedMembership(current: seq<string>, response: seq<Verdict>)
    requires Distinct(current)
    ensures Distinct(Applied(current, response))
    ensures forall a :: a in Applied(current, response) <==> LastVerdict(a, response, a in current)
    decreases |response|
  {
    if |response| > 0 {
      var init := response[..|response| - 1];
      var prev := Applied(current, init);
      var v := response[|response| - 1];
      AppliedMembership(current, init);
      if !v.valid && v.address in prev {
        RemoveDistinct(prev, v.address);
      }
    }
  }

  lemma {:induction false} RemoveDistinct(s: seq<string>, x: string)
    requires x in s && Distinct(s)
    ensures Distinct(RemoveFirst(s, x))
    ensures forall a :: a in RemoveFirst(s, x) <==> a in s && a != x
  {
    if s[0] != x {
      assert x in s[1..] by { var k :| 0 <= k < |s| && s[k] == x; assert s[1..][k - 1] == x; }
      RemoveDistinct(s[1..], x);
      assert s[0] !in s[1..];
    }
  }

  // ---------------------------------------------------------------------------
  // load_nodes

  /** The peers `load_nodes` takes from the daemon's peer list: the address
      of every `white` match that is not yet a current node and is not
      `0.0.0.0`, in order (a peer listed twice is taken twice). */
  function LoadedPeers(matches: seq<Engine.PeerMatch>, current: seq<string>): seq<string>
  {
    if |matches| == 0 then []
    else
      var m := matches[|matches| - 1];
      LoadedPeers(matches[..|matches| - 1], current)
        + (if m.colour == "white" && m.ip !in current && m.ip != "0.0.0.0" then [m.ip] else [])
  }

  /** An address is loaded exactly when a white match carries it and it is
      neither current nor `0.0.0.0`. */
  lemma {:induction false} LoadedPeersExactly(matches: seq<Engine.PeerMatch>, current: seq<string>)
    ensures forall a :: a in LoadedPeers(matches, current) <==>
      a !in current && a != "0.0.0.0" && exists m :: m in matches && m.colour == "white" && m.ip == a
    decreases |matches|
  {
    if |matches| > 0 {
      var init := matches[..|matches| - 1];
      var m := matches[|matches| - 1];
      LoadedPeersExactly(init, current);
      assert matches == init + [m];
      forall a | a !in current && a != "0.0.0.0" && exists m' :: m' in matches && m'.colour == "white" && m'.ip == a
        ensures a in LoadedPeers(matches, current)
      {
        var m' :| m' in matches && m'.colour == "white" && m'.ip == a;
        if m' != m {
          assert m' in init;
        }
      }
    }
  }

  // ---------------------------------------------------------------------------
  // update_dns_records

  /** A record of the zone listing. */
  datatype LegacyRecord = LegacyRecord(id: string, name: string, content: string)

  /** The answer to the zone listing: a failed request or undecodable body
      (both caught), or the body's `success` flag and `result` records. */
  datatype Listing = ListingFailed | Listing(success: Value, records: seq<LegacyRecord>)

  /** A record creation for an address, or a deletion of a record by id. */
  datatype LegacyOp = Create(content: string) | Delete(id: string, content: string)

  /** The distinct indices `random.sample(population, 3)` picks. */
  predicate IsSample(sample: seq<nat>, n: nat)
  {
    |sample| == PickCount && Distinct(sample) && forall k :: 0 <= k < |sample| ==> sample[k] < n
  }

  /** The nodes `update_dns_records` publishes: three sampled ones when there
      are more than three, else all of them. */
  function Picked(current: seq<string>, sample: seq<nat>): (picked: seq<string>)
    requires |current| > PickCount ==> IsSample(sample, |current|)
    ensures forall p :: p in picked ==> p in current
    ensures |picked| == if |current| > PickCount then PickCount else |current|
    ensures Distinct(current) ==> Distinct(picked)
  {
    if |current| > PickCount then [current[sample[0]], current[sample[1]], current[sample[2]]]
    else current
  }

  /** Whether the listing has a record of `domain` with this address. */
  predicate HasRecordFor(records: seq<LegacyRecord>, domain: string, node: string)
  {
    exists r :: r in records && r.name == domain && r.content == node
  }

  /** The creations of the first loop: each picked node with no record. */
  function Creates(picked: seq<string>, records: seq<LegacyRecord>, domain: string): seq<LegacyOp>
  {
    if |picked| == 0 then []
    else
      var p := picked[|picked| - 1];
      Creates(picked[..|picked| - 1], records, domain) + (if HasRecordFor(records, domain, p) then [] else [Create(p)])
  }

  /** The deletions of the second loop: each record of `domain` whose address
      was not picked. */
  function Deletes(records: seq<LegacyRecord>, picked: seq<string>, domain: string): seq<LegacyOp>
  {
    if |records| == 0 then []
    else
      var r := records[|records| - 1];
      Deletes(records[..|records| - 1], picked, domain)
        + (if r.name == domain && r.content !in picked then [Delete(r.id, r.content)] else [])
  }

  /** The requests of one `update_dns_records` call, given the picked nodes
      and the listing. */
  function DnsUpdate(picked: seq<string>, listing: Listing, domain: string): seq<LegacyOp>
  {
    if listing.ListingFailed? || !EqualsTrue(listing.success) then []
    else Creates(picked, listing.records, domain) + Deletes(listing.records, picked, domain)
  }

  /** A creation is issued exactly for a picked node without a record. */
  lemma {:induction false} CreatesExactly(picked: seq<string>, records: seq<LegacyRecord>, domain: string)
    ensures forall op :: op in Creates(picked, records, domain) ==> op.Create?
    ensures forall c :: Create(c) in Creates(picked, records, domain) <==> c in picked && !HasRecordFor(records, domain, c)
    decreases |picked|
  {
    if |picked| > 0 {
      var init := picked[..|picked| - 1];
      CreatesExactly(init, records, domain);
      assert picked == init + [picked[|picked| - 1]];
    }
  }

  /** A deletion is issued exactly for a record of `domain` whose address was
      not picked; records of other names are never deleted. */
  lemma {:induction false} DeletesExactly(records: seq<LegacyRecord>, picked: seq<string>, domain: string)
    ensures forall op :: op in Deletes(records, picked, domain) ==> op.Delete?
    ensures forall id, c :: Delete(id, c) in Deletes(records, picked, domain) <==>
      LegacyRecord(id, domain, c) in records && c !in picked
    decreases |records|
  {
    if |records| > 0 {
      var init := records[..|records| - 1];
      DeletesExactly(init, picked, domain);
      assert records == init + [records[|records| - 1]];
    }
  }

  /** The addresses the domain resolves to once the requests went through. */
  function ContentsAfter(records: seq<LegacyRecord>, ops: seq<LegacyOp>, domain: string): set<string>
  {
    (set r | r in records && r.name == domain && Delete(r.id, r.content) !in ops :: r.content)
      + (set op | op in ops && op.Create? :: op.content)
  }

  /** After a successful listing, the domain resolves to exactly the picked
      nodes. */
  lemma LegacyDnsConverges(picked: seq<string>, records: seq<LegacyRecord>, domain: string)
    ensures ContentsAfter(records, Creates(picked, records, domain) + Deletes(records, picked, domain), domain)
         == set p | p in picked
  {
    var ops := Creates(picked, records, domain) + Deletes(records, picked, domain);
    CreatesExactly(picked, records, domain);
    DeletesExactly(records, picked, domain);
    var after := ContentsAfter(records, ops, domain);
    forall c | c in after
      ensures c in picked
    {
      if !(Create(c) in ops) {
        var r :| r in records && r.name == domain && Delete(r.id, r.content) !in ops && r.content == c;
        assert r == LegacyRecord(r.id, domain, c);
      }
    }
    forall c | c in picked
      ensures c in after
    {
      if HasRecordFor(records, domain, c) {
        var r :| r in records && r.name == domain && r.content == c;
        assert r == LegacyRecord(r.id, domain, c);
        assert Delete(r.id, r.content) !in ops;
      } else {
        assert Create(c) in ops;
      }
    }
  }

  /** A listing that failed or whose `success` flag is not `True` leads to no
      request at all. */
  lemma UnsuccessfulListingChangesNothing(picked: seq<string>, listing: Listing, domain: string)
    ensures listing.ListingFailed? ==> DnsUpdate(picked, listing, domain) == []
    ensures listing.Listing? && listing.success == Bool(false) ==> DnsUpdate(picked, listing, domain) == []
    ensures listing.Listing? && listing.success == Int(1) ==>
      |DnsUpdate(picked, listing, domain)| == |Creates(picked, listing.records, domain)| + |Deletes(listing.records, picked, domain)|
  {
  }

  // ---------------------------------------------------------------------------
  // blockchain_height

  /** What the daemon's `print_height` output yields: it raises when there
      is no line or the first line has no digit. */
  datatype DaemonReading = DaemonFailed | NoDaemonHeight | DaemonAt(n: nat)

  function ReadDaemon(output: string): (r: DaemonReading)
    ensures r.NoDaemonHeight? <==> |output| >= 5 && output[..5] == "Error"
  {
    if |output| >= 5 && output[..5] == "Error" then NoDaemonHeight
    else
      var lines := Lines(output);
      if |lines| == 0 then DaemonFailed
      else
        var digits := KeepDigits(lines[0]);
        if |digits| == 0 then DaemonFailed else DaemonAt(DigitsValue(digits))
  }

  /** The height one xmrchain reply decodes to: `None` where the reply is not
      a dictionary, its `status` is not `'success'` or `data.height` is not a
      digit string (each caught, and retried without counting). */
  function XcDecode(blob: Value): Option<nat>
  {
    var status := Get(blob, "status", Nil);
    if status.None? || status.value != Str("success") then None
    else
      var data := Get(blob, "data", Dict(map[])).value;
      var h := Get(data, "height", Nil);
      if h.None? || !h.value.Str? || !IsDigits(h.value.s) then None
      else Some(DigitsValue(h.value.s))
  }

  /** The first attempt that decodes; a `None` attempt is a failed request. */
  function FirstDecoded(attempts: seq<Option<Value>>): (r: Option<nat>)
    ensures r.Some? <==> exists k :: 0 <= k < |attempts| && attempts[k].Some? && XcDecode(attempts[k].value).Some?
  {
    if |attempts| == 0 then None
    else if attempts[0].Some? && XcDecode(attempts[0].value).Some? then XcDecode(attempts[0].value)
    else
      var r := FirstDecoded(attempts[1..]);
      assert forall k :: 1 <= k < |attempts| ==> attempts[k] == attempts[1..][k - 1];
      r
  }

  /** The outcome of `blockchain_height`: raised, still retrying when no
      attempt decodes (the loop only exits on a decoded height), or a height
      that may be `None`. */
  datatype LegacyHeight = HeightRaised | StillRetrying | HeightOf(h: Option<int>)

  function HeightSpec(useXmrchain: bool, output: string, attempts: seq<Option<Value>>): (r: LegacyHeight)
    ensures r.StillRetrying? ==> useXmrchain && FirstDecoded(attempts).None?
  {
    var daemon := ReadDaemon(output);
    var daemonHeight := if daemon.DaemonAt? then Some(daemon.n as int) else None;
    if daemon.DaemonFailed? then HeightRaised
    else if !useXmrchain then HeightOf(daemonHeight)
    else
      match FirstDecoded(attempts)
      case None => StillRetrying
      case Some(ref) =>
        if daemon.DaemonAt? && ref > daemon.n then HeightOf(Some(ref)) else HeightOf(daemonHeight)
  }

  function Max(a: int, b: int): int { if a >= b then a else b }

  /** With both heights the result is the larger; without a daemon height
      the reference is fetched but ignored and the result is `None`. */
  lemma HeightChoice(output: string, attempts: seq<Option<Value>>)
    requires FirstDecoded(attempts).Some?
    ensures ReadDaemon(output).DaemonAt? ==>
      HeightSpec(true, output, attempts) == HeightOf(Some(Max(ReadDaemon(output).n, FirstDecoded(attempts).value)))
    ensures ReadDaemon(output).NoDaemonHeight? ==> HeightSpec(true, output, attempts) == HeightOf(None)
    ensures HeightSpec(true, output, attempts).HeightOf? ==> HeightSpec(false, output, attempts).HeightOf?
  {
  }

  /** Without the reference, the daemon's reading decides alone. */
  lemma DaemonOnly(output: string, attempts: seq<Option<Value>>)
    ensures HeightSpec(false, output, attempts) ==
      match ReadDaemon(output)
      case DaemonFailed => HeightRaised
      case NoDaemonHeight => HeightOf(None)
      case DaemonAt(n) => HeightOf(Some(n))
  {
  }

  /** A daemon printing "Error..." has no height and does not raise. */
  lemma DaemonError()
    ensures ReadDaemon("Error: daemon offline\n") == NoDaemonHeight
    ensures ReadDaemon("") == DaemonFailed
  {
  }

  lemma {:induction false} FirstDecodedAt(attempts: seq<Option<Value>>, i: nat)
    requires i < |attempts| && attempts[i].Some? && XcDecode(attempts[i].value).Some?
    requires forall k :: 0 <= k < i ==> !(attempts[k].Some? && XcDecode(attempts[k].value).Some?)
    ensures FirstDecoded(attempts) == XcDecode(attempts[i].value)
    decreases i
  {
    if i > 0 {
      var rest := attempts[1..];
      assert forall k :: 0 <= k < i - 1 ==> rest[k] == attempts[k + 1];
      FirstDecodedAt(rest, i - 1);
    }
  }

  // ---------------------------------------------------------------------------
  // check_all_nodes

  /** The `current_nodes` file: absent (the list from the last pass is kept),
      not JSON (the ValueError is not caught), or a list of addresses. */
  datatype NodesFile = NoNodesFile | NodesUnparsable | NodesFile(nodes: seq<string>)

  /** Everything one pass consumes from the outside: the file, the daemon's
      outputs and xmrchain's replies for the two height reads, the answers
      of the two scans, whether each `current_nodes` write succeeds, the
      daemon's peer list, the sampling and the zone listing. */
  datatype LegacyInputs = LegacyInputs(
    nodesFile: NodesFile,
    heightOutput1: string, attempts1: seq<Option<Value>>, probe1: string -> ScanReply, writeOk1: bool,
    peerMatches: seq<Engine.PeerMatch>,
    heightOutput2: string, attempts2: seq<Option<Value>>, probe2: string -> ScanReply, writeOk2: bool,
    sample: nat -> seq<nat>, listing: Listing)

  /** How a pass ends: an uncaught exception, a height read that never stops
      retrying, or completion with the DNS requests issued (none when the
      update was skipped for want of nodes). */
  datatype LegacyOutcome = LegacyRaised | LegacyStuck | LegacyDone(dnsUpdated: bool, ops: seq<LegacyOp>)

  /** A scan phase either lets the pass go on with a new node list or ends it. */
  datatype Phase = Continue(nodes: seq<string>) | Stop(outcome: LegacyOutcome, nodes: seq<string>)

  /** One `start_scanning_threads(addresses, get_blockchain_height())`. */
  function ScanPhase(current: seq<string>, useXmrchain: bool, output: string, attempts: seq<Option<Value>>,
                     addresses: seq<string>, probe: string -> ScanReply, writeOk: bool): Phase
  {
    var h := HeightSpec(useXmrchain, output, attempts);
    if h.HeightRaised? then Stop(LegacyRaised, current)
    else if h.StillRetrying? then Stop(LegacyStuck, current)
    else
      var vs := ScanAll(h.h, addresses, probe);
      if vs.None? then Stop(LegacyRaised, current)
      else
        var next := Applied(current, vs.value);
        // the error handler concatenates a str and the exception: TypeError
        if writeOk then Continue(next) else Stop(LegacyRaised, next)
  }

  ghost predicate SamplesValid(sample: nat -> seq<nat>)
  {
    forall n: nat :: n > PickCount ==> IsSample(sample(n), n)
  }

  datatype PassResult = PassResult(outcome: LegacyOutcome, nodes: seq<string>)

  /** One `check_all_nodes()` pass from the node list `current`: the outcome
      and the node list it leaves. */
  function PassSpec(current: seq<string>, useXmrchain: bool, domain: string, inp: LegacyInputs): PassResult
    requires SamplesValid(inp.sample)
  {
    if inp.nodesFile.NodesUnparsable? then PassResult(LegacyRaised, current)
    else
      var c0 := if inp.nodesFile.NodesFile? then inp.nodesFile.nodes else current;
      var p1 := if |c0| > 0 then ScanPhase(c0, useXmrchain, inp.heightOutput1, inp.attempts1, c0, inp.probe1, inp.writeOk1)
                else Continue(c0);
      if p1.Stop? then PassResult(p1.outcome, p1.nodes)
      else PassTail(p1.nodes, useXmrchain, domain, inp)
  }

  /** The rest of a pass once the known nodes are scanned: scan the new
      peers, then update DNS when nodes remain. */
  function PassTail(c1: seq<string>, useXmrchain: bool, domain: string, inp: LegacyInputs): PassResult
    requires SamplesValid(inp.sample)
  {
    var p2 := ScanPhase(c1, useXmrchain, inp.heightOutput2, inp.attempts2,
                        LoadedPeers(inp.peerMatches, c1), inp.probe2, inp.writeOk2);
    if p2.Stop? then PassResult(p2.outcome, p2.nodes)
    else
      var c2 := p2.nodes;
      if |c2| > 0 then PassResult(LegacyDone(true, DnsUpdate(Picked(c2, inp.sample(|c2|)), inp.listing, domain)), c2)
      else PassResult(LegacyDone(false, []), c2)
  }

  /** The DNS update runs exactly when the pass ends with usable nodes, and
      then only publishes some of them. */
  lemma DnsOnlyWithNodes(current: seq<string>, useXmrchain: bool, domain: string, inp: LegacyInputs)
    requires SamplesValid(inp.sample)
    ensures var PassResult(outcome, nodes) := PassSpec(current, useXmrchain, domain, inp);
      outcome.LegacyDone? ==>
        (outcome.dnsUpdated <==> |nodes| > 0)
        && (!outcome.dnsUpdated ==> outcome.ops == [])
        && forall op :: op in outcome.ops && op.Create? ==> op.content in nodes
  {
    var PassResult(outcome, nodes) := PassSpec(current, useXmrchain, domain, inp);
    if outcome.LegacyDone? && outcome.dnsUpdated {
      CreatesPicked(nodes, inp.sample(|nodes|), inp.listing, domain);
    }
  }

  /** The DNS update only creates records for nodes of the list. */
  lemma CreatesPicked(nodes: seq<string>, sample: seq<nat>, listing: Listing, domain: string)
    requires |nodes| > PickCount ==> IsSample(sample, |nodes|)
    ensures forall op :: op in DnsUpdate(Picked(nodes, sample), listing, domain) && op.Create? ==> op.content in nodes
  {
    var picked := Picked(nodes, sample);
    if listing.Listing? && EqualsTrue(listing.success) {
      CreatesExactly(picked, listing.records, domain);
      DeletesExactly(listing.records, picked, domain);
    }
  }

  /** A pass never puts an address into the list twice. */
  lemma PassNodesDistinct(current: seq<string>, useXmrchain: bool, domain: string, inp: LegacyInputs)
    requires SamplesValid(inp.sample)
    requires Distinct(current)
    requires inp.nodesFile.NodesFile? ==> Distinct(inp.nodesFile.nodes)
    ensures Distinct(PassSpec(current, useXmrchain, domain, inp).nodes)
  {
    var c0 := if inp.nodesFile.NodesFile? then inp.nodesFile.nodes else current;
    if !inp.nodesFile.NodesUnparsable? {
      var p1 := if |c0| > 0 then ScanPhase(c0, useXmrchain, inp.heightOutput1, inp.attempts1, c0, inp.probe1, inp.writeOk1)
                else Continue(c0);
      ScanPhaseDistinct(c0, useXmrchain, inp.heightOutput1, inp.attempts1, c0, inp.probe1, inp.writeOk1);
      if p1.Continue? {
        ScanPhaseDistinct(p1.nodes, useXmrchain, inp.heightOutput2, inp.attempts2,
                          LoadedPeers(inp.peerMatches, p1.nodes), inp.probe2, inp.writeOk2);
      }
    }
  }

  lemma ScanPhaseDistinct(current: seq<string>, useXmrchain: bool, output: string, attempts: seq<Option<Value>>,
                          addresses: seq<string>, probe: string -> ScanReply, writeOk: bool)
    requires Distinct(current)
    ensures Distinct(ScanPhase(current, useXmrchain, output, attempts, addresses, probe, writeOk).nodes)
  {
    var h := HeightSpec(useXmrchain, output, attempts);
    if h.HeightOf? && ScanAll(h.h, addresses, probe).Some? {
      AppliedMembership(current, ScanAll(h.h, addresses, probe).value);
    }
  }

  /** The engine's state between passes: `currentNodes`, and the two
      settings the pass reads. */
  class LegacyEngine {
    const useXmrchain: bool
    const domain: string
    var currentNodes: seq<string>

    constructor (useXmrchain: bool, domain: string)
      ensures this.useXmrchain == useXmrchain && this.domain == domain && currentNodes == []
    {
      this.useXmrchain := useXmrchain;
      this.domain := domain;
      currentNodes := [];
    }

    /** `blockchain_height()`: the daemon's reading, then (when configured)
        xmrchain's attempts until one decodes. */
    method BlockchainHeight(output: string, attempts: seq<Option<Value>>) returns (r: LegacyHeight)
      ensures r == HeightSpec(useXmrchain, output, attempts)
    {
      var daemon := ReadDaemon(output);
      if daemon.DaemonFailed? {
        return HeightRaised;
      }
      var daemonHeight: Option<int> := if daemon.DaemonAt? then Some(daemon.n) else None;
      if !useXmrchain {
        return HeightOf(daemonHeight);
      }
      var retries := 0;
      var refHeight: Option<nat> := None;
      var i := 0;
      while i < |attempts|
        invariant 0 <= i <= |attempts|
        invariant refHeight.None? ==> forall k :: 0 <= k < i ==> !(attempts[k].Some? && XcDecode(attempts[k].value).Some?)
        invariant refHeight.Some? ==> refHeight == FirstDecoded(attempts)
      {
        // past MaxRetries the source only logs and keeps trying
        if attempts[i].None? {
          retries := retries + 1;
        } else if XcDecode(attempts[i].value).Some? {
          FirstDecodedAt(attempts, i);
          refHeight := XcDecode(attempts[i].value);
          break;
        }
        i := i + 1;
      }
      if refHeight.None? {
        return StillRetrying;
      }
      if daemonHeight.Some? && refHeight.value > daemonHeight.value {
        return HeightOf(Some(refHeight.value));
      }
      return HeightOf(daemonHeight);
    }

    /** The response loop of `start_scanning_threads`: add a valid node that
        is absent, remove an invalid one that is present. */
    method ApplyScanResults(response: seq<Verdict>)
      modifies this
      ensures currentNodes == Applied(old(currentNodes), response)
    {
      var i := 0;
      while i < |response|
        invariant 0 <= i <= |response|
        invariant currentNodes == Applied(old(currentNodes), response[..i])
      {
        var node := response[i];
        assert response[..i + 1][..i] == response[..i];
        if node.valid && node.address !in currentNodes {
          currentNodes := currentNodes + [node.address];
        } else if !node.valid && node.address in currentNodes {
          currentNodes := RemoveFirst(currentNodes, node.address);
        }
        i := i + 1;
      }
      assert response[..i] == response;
    }

    /** `start_scanning_threads(addresses, height)`: scan, update the list,
        write it to `current_nodes`. Returns whether it raised. */
    method StartScanningThreads(addresses: seq<string>, height: Option<int>, probe: string -> ScanReply, writeOk: bool)
      returns (raised: bool)
      modifies this
      ensures ScanAll(height, addresses, probe).None? ==> raised && currentNodes == old(currentNodes)
      ensures ScanAll(height, addresses, probe).Some? ==>
        currentNodes == Applied(old(currentNodes), ScanAll(height, addresses, probe).value) && raised == !writeOk
    {
      var response := ScanAll(height, addresses, probe);
      if response.None? {
        return true;
      }
      ApplyScanResults(response.value);
      raised := !writeOk;
    }

    /** `load_nodes()` over the matches of the peer-list pattern. */
    method LoadNodes(matches: seq<Engine.PeerMatch>) returns (nodes: seq<string>)
      ensures nodes == LoadedPeers(matches, currentNodes)
    {
      nodes := [];
      var i := 0;
      while i < |matches|
        invariant 0 <= i <= |matches|
        invariant nodes == LoadedPeers(matches[..i], currentNodes)
      {
        assert matches[..i + 1][..i] == matches[..i];
        if matches[i].colour == "white" {
          var address := matches[i].ip;
          if address !in currentNodes && address != "0.0.0.0" {
            nodes := nodes + [address];
          }
        }
        i := i + 1;
      }
      assert matches[..i] == matches;
    }

    /** The `flag_exist` search of the first loop. */
    method HasRecord(records: seq<LegacyRecord>, node: string) returns (found: bool)
      ensures found == HasRecordFor(records, domain, node)
    {
      found := false;
      var i := 0;
      while i < |records|
        invariant 0 <= i <= |records|
        invariant !found
        invariant forall k :: 0 <= k < i ==> !(records[k].name == domain && records[k].content == node)
      {
        if records[i].name == domain && records[i].content == node {
          found := true;
          break;
        }
        i := i + 1;
      }
    }

    /** The `flag_exist` search of the second loop. */
    static method IsPicked(picked: seq<string>, content: string) returns (found: bool)
      ensures found == (content in picked)
    {
      found := false;
      var i := 0;
      while i < |picked|
        invariant 0 <= i <= |picked|
        invariant !found && content !in picked[..i]
      {
        if picked[i] == content {
          found := true;
          break;
        }
        assert picked[..i + 1] == picked[..i] + [picked[i]];
        i := i + 1;
      }
      assert found || picked[..i] == picked;
    }

    /** `update_dns_records()`: the creations, then the deletions. */
    method UpdateDnsRecords(sample: seq<nat>, listing: Listing) returns (ops: seq<LegacyOp>)
      requires |currentNodes| > PickCount ==> IsSample(sample, |currentNodes|)
      ensures ops == DnsUpdate(Picked(currentNodes, sample), listing, domain)
    {
      var picked := Picked(currentNodes, sample);
      ops := [];
      if listing.ListingFailed? || !EqualsTrue(listing.success) {
        return;
      }
      var records := listing.records;
      var i := 0;
      while i < |picked|
        invariant 0 <= i <= |picked|
        invariant ops == Creates(picked[..i], records, domain)
      {
        assert picked[..i + 1][..i] == picked[..i];
        var exists_ := HasRecord(records, picked[i]);
        if !exists_ {
          ops := ops + [Create(picked[i])];
        }
        i := i + 1;
      }
      assert picked[..i] == picked;
      ghost var creates := ops;
      var j := 0;
      while j < |records|
        invariant 0 <= j <= |records|
        invariant ops == creates + Deletes(records[..j], picked, domain)
      {
        assert records[..j + 1][..j] == records[..j];
        if records[j].name == domain {
          var found := IsPicked(picked, records[j].content);
          if !found {
            ops := ops + [Delete(records[j].id, records[j].content)];
          }
        }
        j := j + 1;
      }
      assert records[..j] == records;
    }

    /** One scan phase of the pass. */
    method RunScanPhase(addresses: seq<string>, output: string, attempts: seq<Option<Value>>,
                        probe: string -> ScanReply, writeOk: bool) returns (stop: Option<LegacyOutcome>)
      modifies this
      ensures var p := ScanPhase(old(currentNodes), useXmrchain, output, attempts, addresses, probe, writeOk);
        p == if stop.Some? then Stop(stop.value, currentNodes) else Continue(currentNodes)
    {
      var h := BlockchainHeight(output, attempts);
      if h.HeightRaised? {
        return Some(LegacyRaised);
      }
      if h.StillRetrying? {
        return Some(LegacyStuck);
      }
      var raised := StartScanningThreads(addresses, h.h, probe, writeOk);
      stop := if raised then Some(LegacyRaised) else None;
    }

    /** `check_all_nodes()`. */
    method CheckAllNodes(inp: LegacyInputs) returns (outcome: LegacyOutcome)
      requires SamplesValid(inp.sample)
      modifies this
      ensures PassResult(outcome, currentNodes) == PassSpec(old(currentNodes), useXmrchain, domain, inp)
    {
      match inp.nodesFile {
        case NodesUnparsable => return LegacyRaised;
        case NodesFile(ns) => currentNodes := ns;
        case NoNodesFile =>
      }
      if |currentNodes| > 0 {
        var stop := RunScanPhase(currentNodes, inp.heightOutput1, inp.attempts1, inp.probe1, inp.writeOk1);
        if stop.Some? {
          return stop.value;
        }
      }
      outcome := FinishPass(inp);
    }

    /** The peers phase and the DNS update of `check_all_nodes`. */
    method FinishPass(inp: LegacyInputs) returns (outcome: LegacyOutcome)
      requires SamplesValid(inp.sample)
      modifies this
      ensures PassResult(outcome, currentNodes) == PassTail(old(currentNodes), useXmrchain, domain, inp)
    {
      var peers := LoadNodes(inp.peerMatches);
      var stop := RunScanPhase(peers, inp.heightOutput2, inp.attempts2, inp.probe2, inp.writeOk2);
      if stop.Some? {
        return stop.value;
      }
      if |currentNodes| > 0 {
        var ops := UpdateDnsRecords(inp.sample(|currentNodes|), inp.listing);
        outcome := LegacyDone(true, ops);
      } else {
        outcome := LegacyDone(false, []);
      }
    }
  }
}
