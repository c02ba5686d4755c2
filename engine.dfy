/** moneriote/moneriote.py: one pass of the package engine. Resolve the
    reference height, re-scan the cached nodes, fall back to the daemon's peer
    list when few survive, rewrite the cache and reconcile the DNS records. */
module Engine {
  import opened Values
  import opened Strings
  import opened Rpc

  /** The height discovery methods the constructor accepts. */
  const HeightMethods: seq<string> := ["xmrchain", "monerod", "compare", "moneroblocks"]

  /** `max_retries`: each source is tried while `retries <= 5`, six times. */
  const MaxRetries: nat := 5

  // ---------------------------------------------------------------------------
  // Python's `>` and `max` on the collected heights

  /** `a < b` on two strings: code-point lexicographic order. */
  predicate StrLess(a: string, b: string)
  {
    if |a| == 0 then |b| > 0
    else if |b| == 0 then false
    else if a[0] != b[0] then a[0] < b[0]
    else StrLess(a[1..], b[1..])
  }

  /** `a > b` in Python; `None` where it raises TypeError. */
  function Greater(a: Value, b: Value): (r: Option<bool>)
    ensures IsInt(a) && IsInt(b) ==> r == Some(AsInt(a) > AsInt(b))
    ensures r.Some? ==> (IsInt(a) && IsInt(b)) || (a.Str? && b.Str?)
  {
    if IsInt(a) && IsInt(b) then Some(AsInt(a) > AsInt(b))
    else if a.Str? && b.Str? then Some(StrLess(b.s, a.s))
    else None
  }

  /** `max(vs)`: the first element no later element is greater than; `None`
      where a comparison raises. */
  function MaxOf(vs: seq<Value>): (r: Option<Value>)
    requires |vs| >= 1
    ensures r.Some? ==> r.value in vs
  {
    if |vs| == 1 then Some(vs[0])
    else
      match MaxOf(vs[..|vs| - 1])
      case None => None
      case Some(m) =>
        match Greater(vs[|vs| - 1], m)
        case None => None
        case Some(gt) => if gt then Some(vs[|vs| - 1]) else Some(m)
  }

  /** Over integers `max` never raises and returns the largest value. */
  lemma {:induction false} MaxOfInts(vs: seq<Value>)
    requires |vs| >= 1
    requires forall i :: 0 <= i < |vs| ==> IsInt(vs[i])
    ensures MaxOf(vs).Some?
    ensures forall i :: 0 <= i < |vs| ==> AsInt(vs[i]) <= AsInt(MaxOf(vs).value)
    decreases |vs|
  {
    if |vs| > 1 {
      var init := vs[..|vs| - 1];
      MaxOfInts(init);
      assert IsInt(MaxOf(init).value);
    }
  }

  // ---------------------------------------------------------------------------
  // The sources of the reference height

  /** The reply of attempt `k`; a missing one is a failed request, which
      `make_json_request` turns into `None`. */
  function ReplyAt(replies: seq<Value>, k: nat): Value
  {
    if k < |replies| then replies[k] else Nil
  }

  /** The first attempt from `k` on at which moneroblocks answers with a
      dictionary (anything else has no `get` and is retried). */
  function FirstDict(replies: seq<Value>, k: nat): (r: Option<nat>)
    ensures r.Some? ==> k <= r.value <= MaxRetries && ReplyAt(replies, r.value).Dict?
    ensures r.Some? ==> forall j :: k <= j < r.value ==> !ReplyAt(replies, j).Dict?
    ensures r.None? ==> forall j :: k <= j <= MaxRetries ==> !ReplyAt(replies, j).Dict?
    decreases MaxRetries + 1 - k
  {
    if k > MaxRetries then None
    else if ReplyAt(replies, k).Dict? then Some(k)
    else FirstDict(replies, k + 1)
  }

  /** What `data['moneroblocks']` ends up holding: `blob.get('height')` of the
      first dictionary reply, which need not be an integer. */
  function MoneroblocksHeight(replies: seq<Value>): Option<Value>
  {
    match FirstDict(replies, 0)
    case None => None
    case Some(k) => Some(Get(ReplyAt(replies, k), "height", Nil).value)
  }

  /** One xmrchain attempt: it fails before storing anything, stores a height
      and then fails the integer check, or succeeds. */
  datatype XcAttempt = XcFail | XcStored(h: Value) | XcOk(h: Value)

  function XcAttemptOf(blob: Value): (r: XcAttempt)
    ensures r.XcOk? ==> IsInt(r.h)
    ensures r.XcStored? ==> !IsInt(r.h)
    ensures !r.XcFail? ==> blob.Dict? && Get(blob, "status", Nil) == Some(Str("success"))
  {
    if !blob.Dict? || Get(blob, "status", Nil) != Some(Str("success")) then XcFail
    else
      var d := Get(blob, "data", Dict(map[])).value;
      if !d.Dict? then XcFail
      else
        var h := Get(d, "height", Nil).value;
        if IsInt(h) then XcOk(h) else XcStored(h)
  }

  /** The first successful xmrchain attempt from `k` on. */
  function FirstXcOk(replies: seq<Value>, k: nat): (r: Option<nat>)
    ensures r.Some? ==> k <= r.value <= MaxRetries && XcAttemptOf(ReplyAt(replies, r.value)).XcOk?
    ensures r.Some? ==> forall j :: k <= j < r.value ==> !XcAttemptOf(ReplyAt(replies, j)).XcOk?
    ensures r.None? ==> forall j :: k <= j <= MaxRetries ==> !XcAttemptOf(ReplyAt(replies, j)).XcOk?
    decreases MaxRetries + 1 - k
  {
    if k > MaxRetries then None
    else if XcAttemptOf(ReplyAt(replies, k)).XcOk? then Some(k)
    else FirstXcOk(replies, k + 1)
  }

  /** `data['xmrchain_height']` after the first `n` attempts: the height of
      the last attempt that got as far as storing one. */
  function XcStore(replies: seq<Value>, n: nat): Option<Value>
  {
    if n == 0 then None
    else
      match XcAttemptOf(ReplyAt(replies, n - 1))
      case XcFail => XcStore(replies, n - 1)
      case XcStored(h) => Some(h)
      case XcOk(h) => Some(h)
  }

  /** What `data['xmrchain_height']` ends up holding. */
  function XmrchainHeight(replies: seq<Value>): Option<Value>
  {
    match FirstXcOk(replies, 0)
    case Some(k) => XcStore(replies, k + 1)
    case None => XcStore(replies, MaxRetries + 1)
  }

  /** The daemon's `print_height` output as `monerod_get_height` reads it:
      nothing usable (no output, or an `Error...` message), the integer made
      of the digits of the first line, or a raise when that line has none. */
  datatype DaemonRead = DaemonSilent | DaemonRaised | DaemonHeight(n: nat)

  function ReadDaemonHeight(output: Option<string>): (r: DaemonRead)
    ensures r.DaemonHeight? ==>
      (output.Some? && |Lines(output.value)| > 0 && r.n == DigitsValue(KeepDigits(Lines(output.value)[0])))
  {
    match output
    case None => DaemonSilent
    case Some(o) =>
      if |o| == 0 || (|o| >= 5 && o[..5] == "Error") then DaemonSilent
      else
        var ls := Lines(o);
        assert ls != [] by { LinesJoin(o); }
        var digits := KeepDigits(ls[0]);
        if |digits| == 0 then DaemonRaised else DaemonHeight(DigitsValue(digits))
  }

  /** The outcome of `monerod_get_height`: a value (Python `None` is `Nil`)
      or an exception. */
  datatype HeightResult = Height(v: Value) | HeightRaised

  /** `data.values()` in insertion order. */
  function CollectedValues(md: Option<Value>, mb: Option<Value>, xc: Option<Value>): (vs: seq<Value>)
    ensures |vs| == (if md.Some? then 1 else 0) + (if mb.Some? then 1 else 0) + (if xc.Some? then 1 else 0)
  {
    (if md.Some? then [md.value] else []) + (if mb.Some? then [mb.value] else [])
    + (if xc.Some? then [xc.value] else [])
  }

  /** `monerod_get_height(method=mode)` where `queryDaemon` says whether the daemon
      branch is entered, `output` is what the daemon prints and `mb`, `xc`
      are the replies of the successive moneroblocks and xmrchain attempts. */
  function HeightSpec(mode: string, queryDaemon: bool, output: Option<string>,
                      mb: seq<Value>, xc: seq<Value>): HeightResult
  {
    var md := if queryDaemon then ReadDaemonHeight(output) else DaemonSilent;
    if md.DaemonRaised? then HeightRaised
    else if md.DaemonHeight? && mode == "monerod" then Height(Int(md.n))
    else if mode == "xmrchain" && FirstXcOk(xc, 0).Some? then
      Height(XcAttemptOf(ReplyAt(xc, FirstXcOk(xc, 0).value)).h)
    else
      var vs := CollectedValues(if md.DaemonHeight? then Some(Int(md.n)) else None,
                                if mode in ["compare", "moneroblocks"] then MoneroblocksHeight(mb) else None,
                                if mode in ["compare", "xmrchain"] then XmrchainHeight(xc) else None);
      if |vs| == 0 then Height(Nil)
      else match MaxOf(vs)
        case None => HeightRaised
        case Some(v) => Height(v)
  }

  /** The daemon test as written: `method == ['compare', 'monerod']` compares
      a string with a list, which Python answers with `False`. */
  predicate DaemonTestAsWritten(mode: string)
  {
    Str(mode) == List([Str("compare"), Str("monerod")])
  }

  /** The daemon test as evidently intended: membership, like the two tests
      after it. */
  predicate DaemonTest(mode: string)
  {
    mode in ["compare", "monerod"]
  }

  /** `monerod_get_height` as written. */
  function HeightAsWritten(mode: string, output: Option<string>, mb: seq<Value>, xc: seq<Value>): (r: HeightResult)
    ensures r == HeightSpec(mode, false, output, mb, xc)
  {
    HeightSpec(mode, DaemonTestAsWritten(mode), output, mb, xc)
  }

  /** As written, the daemon is never consulted: `'monerod'` mode yields
      `None` whatever the daemon prints, so `main` can never proceed with it. */
  lemma MonerodModeAsWritten(output: Option<string>, mb: seq<Value>, xc: seq<Value>)
    ensures HeightAsWritten("monerod", output, mb, xc) == Height(Nil)
  {
    assert !DaemonTestAsWritten("monerod");
    assert "monerod" !in ["compare", "moneroblocks"] && "monerod" !in ["compare", "xmrchain"];
  }

  /** A daemon printing `1234` shows the difference: as written the result is
      `None`, with the intended test it is 1234. */
  lemma MonerodModeCounterexample(mb: seq<Value>, xc: seq<Value>)
    ensures HeightAsWritten("monerod", Some("1234\n"), mb, xc) == Height(Nil)
    ensures HeightSpec("monerod", DaemonTest("monerod"), Some("1234\n"), mb, xc) == Height(Int(1234))
  {
    MonerodModeAsWritten(Some("1234\n"), mb, xc);
    DaemonPrints1234();
  }

  lemma DaemonPrints1234()
    ensures ReadDaemonHeight(Some("1234\n")) == DaemonHeight(1234)
  {
    var o := "1234\n";
    LinesOf1234();
    assert !(|o| >= 5 && o[..5] == "Error") by { assert o[0] == '1'; }
    DigitsOf1234();
  }

  /** `"1234\n".splitlines()` is one line. */
  lemma LinesOf1234()
    ensures Lines("1234\n") == ["1234"]
  {
    LinesOfJoin(["1234"]);
    assert Join(["1234"], "\n") + "\n" == "1234\n";
  }

  /** The line `1234` is all digits and reads as 1234. */
  lemma DigitsOf1234()
    ensures KeepDigits("1234") == "1234"
    ensures DigitsValue("1234") == 1234
  {
    assert KeepDigits("4") == "4" by { assert "4"[1..] == ""; }
    assert "34"[1..] == "4" && "234"[1..] == "34" && "1234"[1..] == "234";
    assert "1234"[..3] == "123" && "123"[..2] == "12" && "12"[..1] == "1" && "1"[..0] == "";
  }

  /** With the intended test, `'monerod'` mode returns the daemon's height. */
  lemma MonerodModeIntended(output: Option<string>, mb: seq<Value>, xc: seq<Value>)
    requires ReadDaemonHeight(output).DaemonHeight?
    ensures HeightSpec("monerod", DaemonTest("monerod"), output, mb, xc)
            == Height(Int(ReadDaemonHeight(output).n))
  {
  }

  /** In `'xmrchain'` mode the answer is the first integer height reported
      with status `success`; with none in six attempts, the last stored
      non-integer height, or `None`. */
  lemma XmrchainMode(output: Option<string>, mb: seq<Value>, xc: seq<Value>)
    ensures FirstXcOk(xc, 0).Some? ==>
      HeightSpec("xmrchain", DaemonTest("xmrchain"), output, mb, xc).Height? &&
      IsInt(HeightSpec("xmrchain", DaemonTest("xmrchain"), output, mb, xc).v)
    ensures FirstXcOk(xc, 0).None? ==>
      HeightSpec("xmrchain", DaemonTest("xmrchain"), output, mb, xc)
      == Height(if XcStore(xc, MaxRetries + 1).Some? then XcStore(xc, MaxRetries + 1).value else Nil)
  {
  }

  /** In `'compare'` mode with integer heights from every source, the result
      is their maximum. */
  lemma CompareTakesMaximum(output: Option<string>, mb: seq<Value>, xc: seq<Value>)
    requires !ReadDaemonHeight(output).DaemonRaised?
    requires MoneroblocksHeight(mb).Some? && IsInt(MoneroblocksHeight(mb).value)
    requires FirstXcOk(xc, 0).Some?
    ensures HeightSpec("compare", DaemonTest("compare"), output, mb, xc).Height?
    ensures IsInt(HeightSpec("compare", DaemonTest("compare"), output, mb, xc).v)
    ensures AsInt(MoneroblocksHeight(mb).value) <= AsInt(HeightSpec("compare", DaemonTest("compare"), output, mb, xc).v)
    ensures AsInt(XcAttemptOf(ReplyAt(xc, FirstXcOk(xc, 0).value)).h)
            <= AsInt(HeightSpec("compare", DaemonTest("compare"), output, mb, xc).v)
  {
    var md := ReadDaemonHeight(output);
    var k := FirstXcOk(xc, 0).value;
    var vs := CollectedValues(if md.DaemonHeight? then Some(Int(md.n)) else None,
                              MoneroblocksHeight(mb), XmrchainHeight(xc));
    assert XmrchainHeight(xc) == Some(XcAttemptOf(ReplyAt(xc, k)).h);
    MaxOfInts(vs);
    assert MoneroblocksHeight(mb).value in vs;
    assert XcAttemptOf(ReplyAt(xc, k)).h == vs[|vs| - 1];
  }

  // ---------------------------------------------------------------------------
  // Scanning and peers

  /** `pool.map(partial(RpcNode.is_valid, height), ns)`, run as a sequential
      map; `probe(address, port)` is the node's `/getheight` reply. `None`
      when a worker raised, which `pool.map` re-raises. */
  function ScanAll(height: int, ns: seq<RpcNode>, probe: (string, int) -> Value, now: string): (r: Option<seq<RpcNode>>)
    ensures r.Some? <==> forall i :: 0 <= i < |ns| ==> IsValid(height, ns[i], probe(ns[i].address, ns[i].port), now).Some?
    ensures r.Some? ==> |r.value| == |ns|
    ensures r.Some? ==> forall i :: 0 <= i < |ns| ==>
      r.value[i] == IsValid(height, ns[i], probe(ns[i].address, ns[i].port), now).value
    ensures r.Some? ==> AddressesOf(r.value) == AddressesOf(ns)
  {
    if |ns| == 0 then Some([])
    else
      var last := ns[|ns| - 1];
      match ScanAll(height, ns[..|ns| - 1], probe, now)
      case None => None
      case Some(init) =>
        match IsValid(height, last, probe(last.address, last.port), now)
        case None => None
        case Some(n) => Some(init + [n])
  }

  /** What `scan` returns for a non-empty input that did not raise. */
  function Scanned(height: int, ns: seq<RpcNode>, removeInvalid: bool, probe: (string, int) -> Value, now: string): Option<seq<RpcNode>>
  {
    match ScanAll(height, ns, probe, now)
    case None => None
    case Some(s) => Some(if removeInvalid then FilterValid(s, true) else s)
  }

  /** A `scan` with `remove_invalid` returns only valid nodes, each one a
      scanned input node, and never two with one address. */
  lemma ScannedValid(height: int, ns: seq<RpcNode>, probe: (string, int) -> Value, now: string)
    requires Distinct(AddressesOf(ns))
    requires Scanned(height, ns, true, probe, now).Some?
    ensures forall n :: n in Scanned(height, ns, true, probe, now).value ==> n.valid && n.address in AddressesOf(ns)
    ensures Distinct(AddressesOf(Scanned(height, ns, true, probe, now).value))
  {
    var s := ScanAll(height, ns, probe, now).value;
    FilterValidSpec(s, true);
  }

  /** One match of the daemon's peer-list pattern: colour, peer id, IPv4
      address and port. */
  datatype PeerMatch = PeerMatch(colour: string, id: string, ip: string, port: string)

  /** A fresh node for each `white` match, in order. */
  function WhitePeers(ms: seq<PeerMatch>): (r: seq<RpcNode>)
    ensures forall n :: n in r ==> n == NewNode(n.address) && exists m :: m in ms && m.colour == "white" && m.ip == n.address
  {
    if |ms| == 0 then []
    else
      var m := ms[|ms| - 1];
      WhitePeers(ms[..|ms| - 1]) + (if m.colour == "white" then [NewNode(m.ip)] else [])
  }

  /** `monerod_get_peers()` given the daemon's output and the pattern's
      matches in it. */
  function PeersSpec(output: Option<string>, ms: seq<PeerMatch>): seq<RpcNode>
  {
    if output.None? || |output.value| == 0 then [] else Dedup(WhitePeers(ms))
  }

  /** Only white peers are taken, once per address, each a fresh node on the
      default port that is not yet valid. */
  lemma PeersAreWhite(output: Option<string>, ms: seq<PeerMatch>)
    ensures Distinct(AddressesOf(PeersSpec(output, ms)))
    ensures forall n :: n in PeersSpec(output, ms) ==>
      !n.valid && n.port == DefaultRpcPort && exists m :: m in ms && m.colour == "white" && m.ip == n.address
    ensures (exists m :: m in ms && m.colour == "white") && output.Some? && |output.value| > 0 ==> |PeersSpec(output, ms)| > 0
  {
    DedupAddresses(WhitePeers(ms));
    if (exists m :: m in ms && m.colour == "white") && output.Some? && |output.value| > 0 {
      var m :| m in ms && m.colour == "white";
      WhitePeersHas(ms, m);
      assert m.ip in AddressesOf(Dedup(WhitePeers(ms)));
    }
  }

  lemma {:induction false} WhitePeersHas(ms: seq<PeerMatch>, m: PeerMatch)
    requires m in ms && m.colour == "white"
    ensures m.ip in AddressesOf(WhitePeers(ms))
    decreases |ms|
  {
    var last := ms[|ms| - 1];
    var init := ms[..|ms| - 1];
    var w := WhitePeers(ms);
    if last == m {
      assert AddressesOf(w)[|w| - 1] == m.ip;
    } else {
      assert m in init by { var k :| 0 <= k < |ms| && ms[k] == m; assert init[k] == m; }
      WhitePeersHas(init, m);
      var k :| 0 <= k < |AddressesOf(WhitePeers(init))| && AddressesOf(WhitePeers(init))[k] == m.ip;
      assert AddressesOf(w)[k] == m.ip;
    }
  }

  // ---------------------------------------------------------------------------
  // The DNS reconciliation

  /** A call `main` makes on the DNS provider. */
  datatype DnsOp = AddRecord(node: RpcNode) | DeleteRecord(node: RpcNode)

  /** The add loop: an `add_record` for each insert not already in DNS. */
  function Adds(inserts: seq<RpcNode>, dnsAddrs: seq<string>): (ops: seq<DnsOp>)
    ensures |ops| <= |inserts|
    ensures forall op :: op in ops ==> op.AddRecord? && op.node in inserts && op.node.address !in dnsAddrs
  {
    if |inserts| == 0 then []
    else
      var n := inserts[|inserts| - 1];
      Adds(inserts[..|inserts| - 1], dnsAddrs) + (if n.address !in dnsAddrs then [AddRecord(n)] else [])
  }

  /** The delete loop: the record at index `i` is deleted when its address is
      not among the kept nodes or `i >= maxRecords`. */
  function Deletes(dns: seq<RpcNode>, keep: seq<string>, maxRecords: int): seq<DnsOp>
  {
    if |dns| == 0 then []
    else
      var i := |dns| - 1;
      Deletes(dns[..i], keep, maxRecords)
      + (if dns[i].address !in keep || i >= maxRecords then [DeleteRecord(dns[i])] else [])
  }

  /** The provider calls of one pass: adds for the first `maxRecords`
      shuffled nodes, then deletes over the fetched records. */
  function DnsDiff(nodes: seq<RpcNode>, dns: seq<RpcNode>, maxRecords: int): seq<DnsOp>
  {
    Adds(SlicePrefix(nodes, maxRecords), AddressesOf(dns)) + Deletes(dns, AddressesOf(nodes), maxRecords)
  }

  /** Every insert whose address has no record is added, and nothing else. */
  lemma {:induction false} AddsExactly(inserts: seq<RpcNode>, dnsAddrs: seq<string>)
    ensures forall n :: n in inserts && n.address !in dnsAddrs ==> AddRecord(n) in Adds(inserts, dnsAddrs)
    decreases |inserts|
  {
    if |inserts| > 0 {
      var init := inserts[..|inserts| - 1];
      AddsExactly(init, dnsAddrs);
      forall n | n in inserts && n.address !in dnsAddrs ensures AddRecord(n) in Adds(inserts, dnsAddrs) {
        if n != inserts[|inserts| - 1] {
          var k :| 0 <= k < |inserts| && inserts[k] == n;
          assert init[k] == n;
        }
      }
    }
  }

  /** The delete loop only deletes, and only records the provider listed. */
  lemma {:induction false} DeletesListed(dns: seq<RpcNode>, keep: seq<string>, maxRecords: int)
    ensures forall op :: op in Deletes(dns, keep, maxRecords) ==> op.DeleteRecord? && op.node in dns
    decreases |dns|
  {
    if |dns| > 0 {
      var n := |dns| - 1;
      var prev := Deletes(dns[..n], keep, maxRecords);
      DeletesListed(dns[..n], keep, maxRecords);
      forall op | op in Deletes(dns, keep, maxRecords) ensures op.DeleteRecord? && op.node in dns {
        if op in prev {
          var k :| 0 <= k < n && dns[..n][k] == op.node;
          assert dns[k] == op.node;
        }
      }
    }
  }

  /** Record `i` is deleted exactly when its address is not kept or
      `i >= maxRecords` (records carry distinct addresses). */
  lemma {:induction false} DeletesExactly(dns: seq<RpcNode>, keep: seq<string>, maxRecords: int)
    requires Distinct(AddressesOf(dns))
    ensures forall i :: 0 <= i < |dns| ==>
      (DeleteRecord(dns[i]) in Deletes(dns, keep, maxRecords) <==> dns[i].address !in keep || i >= maxRecords)
    decreases |dns|
  {
    if |dns| > 0 {
      var n := |dns| - 1;
      var init := dns[..n];
      assert Distinct(AddressesOf(init)) by {
        forall i, j | 0 <= i < j < |init| ensures AddressesOf(init)[i] != AddressesOf(init)[j] {
          assert AddressesOf(dns)[i] != AddressesOf(dns)[j];
        }
      }
      DeletesExactly(init, keep, maxRecords);
      DeletesListed(init, keep, maxRecords);
      forall i | 0 <= i < |dns| ensures
        DeleteRecord(dns[i]) in Deletes(dns, keep, maxRecords) <==> dns[i].address !in keep || i >= maxRecords
      {
        if i < n {
          assert init[i] == dns[i];
          assert dns[i] != dns[n] by { assert AddressesOf(dns)[i] != AddressesOf(dns)[n]; }
        } else {
          assert DeleteRecord(dns[n]) !in Deletes(init, keep, maxRecords) by {
            forall op | op in Deletes(init, keep, maxRecords) ensures op != DeleteRecord(dns[n]) {
              var k :| 0 <= k < |init| && init[k] == op.node;
              assert AddressesOf(dns)[k] != AddressesOf(dns)[n];
            }
          }
        }
      }
    }
  }

  /** With no valid node left, every fetched record is deleted. */
  lemma NoNodesDeletesAll(dns: seq<RpcNode>, maxRecords: int)
    ensures Deletes(dns, [], maxRecords) == seq(|dns|, i requires 0 <= i < |dns| => DeleteRecord(dns[i]))
    ensures DnsDiff([], dns, maxRecords) == Deletes(dns, [], maxRecords)
  {
    DeletesWithoutKeep(dns, maxRecords);
    var none: seq<RpcNode> := [];
    assert SlicePrefix(none, maxRecords) == [];
    assert AddressesOf(none) == [];
  }

  /** With nothing to keep, the deletion loop deletes record `i` as its
      `i`-th operation. */
  lemma {:induction false} DeletesWithoutKeep(dns: seq<RpcNode>, maxRecords: int)
    ensures |Deletes(dns, [], maxRecords)| == |dns|
    ensures forall i :: 0 <= i < |dns| ==> Deletes(dns, [], maxRecords)[i] == DeleteRecord(dns[i])
    decreases |dns|
  {
    if |dns| > 0 {
      var n := |dns| - 1;
      var none: seq<string> := [];
      var r := Deletes(dns, none, maxRecords);
      var prev := Deletes(dns[..n], none, maxRecords);
      DeletesWithoutKeep(dns[..n], maxRecords);
      assert dns[n].address !in none;
      assert r == prev + [DeleteRecord(dns[n])];
      forall i | 0 <= i < |dns|
        ensures r[i] == DeleteRecord(dns[i])
      {
        if i < n {
          assert r[i] == prev[i];
          assert dns[..n][i] == dns[i];
        }
      }
    }
  }

  /** A pass adds at most `maxRecords` records. */
  lemma AddsBounded(nodes: seq<RpcNode>, dns: seq<RpcNode>, maxRecords: int)
    requires maxRecords >= 0
    ensures |Adds(SlicePrefix(nodes, maxRecords), AddressesOf(dns))| <= maxRecords
  {
  }

  /** The addresses DNS points at once `ops` are applied to the records `dns`. */
  function AfterOps(dns: seq<RpcNode>, ops: seq<DnsOp>): set<string>
  {
    (set i | 0 <= i < |dns| && DeleteRecord(dns[i]) !in ops :: dns[i].address)
    + (set op | op in ops && op.AddRecord? :: op.node.address)
  }

  /** After a pass DNS points at a picked node that had no record. A picked
      node that had one keeps it only when that record lies among the first
      `maxRecords`: one further down is deleted, and the add loop skipped the
      node because it was present. */
  lemma PickedNodesPublished(nodes: seq<RpcNode>, dns: seq<RpcNode>, maxRecords: int)
    requires Distinct(AddressesOf(dns))
    ensures forall n :: n in SlicePrefix(nodes, maxRecords) && n.address !in AddressesOf(dns) ==>
      n.address in AfterOps(dns, DnsDiff(nodes, dns, maxRecords))
    ensures forall n, i :: n in SlicePrefix(nodes, maxRecords) && 0 <= i < |dns| && dns[i].address == n.address ==>
      (n.address in AfterOps(dns, DnsDiff(nodes, dns, maxRecords)) <==> i < maxRecords)
  {
    var inserts := SlicePrefix(nodes, maxRecords);
    var adds := Adds(inserts, AddressesOf(dns));
    var dels := Deletes(dns, AddressesOf(nodes), maxRecords);
    var ops := adds + dels;
    AddsExactly(inserts, AddressesOf(dns));
    DeletesExactly(dns, AddressesOf(nodes), maxRecords);
    DeletesListed(dns, AddressesOf(nodes), maxRecords);
    forall n | n in inserts && n.address !in AddressesOf(dns) ensures n.address in AfterOps(dns, ops) {
      assert AddRecord(n) in ops;
    }
    forall n, i | n in inserts && 0 <= i < |dns| && dns[i].address == n.address
      ensures n.address in AfterOps(dns, ops) <==> i < maxRecords
    {
      var k :| 0 <= k < |inserts| && inserts[k] == n;
      assert nodes[k] == n;
      assert AddressesOf(nodes)[k] == n.address;
      if i < maxRecords {
        assert DeleteRecord(dns[i]) !in dels;
        assert DeleteRecord(dns[i]) !in adds;
      } else {
        RecordGone(dns, ops, i);
      }
    }
  }

  /** A deleted record's address is gone unless an add puts it back. */
  lemma RecordGone(dns: seq<RpcNode>, ops: seq<DnsOp>, i: nat)
    requires Distinct(AddressesOf(dns)) && i < |dns|
    requires DeleteRecord(dns[i]) in ops
    requires forall op :: op in ops && op.AddRecord? ==> op.node.address !in AddressesOf(dns)
    ensures dns[i].address !in AfterOps(dns, ops)
  {
    assert AddressesOf(dns)[i] == dns[i].address;
    forall j | 0 <= j < |dns| && dns[j].address == dns[i].address ensures j == i {
      assert AddressesOf(dns)[j] == AddressesOf(dns)[i];
    }
  }

  /** After a pass DNS points only at listed nodes, and no record beyond the
      first `maxRecords` survives. */
  lemma OnlyListedNodesRemain(nodes: seq<RpcNode>, dns: seq<RpcNode>, maxRecords: int)
    requires Distinct(AddressesOf(dns))
    ensures forall a :: a in AfterOps(dns, DnsDiff(nodes, dns, maxRecords)) ==> a in AddressesOf(nodes)
    ensures forall i :: 0 <= i < |dns| && i >= maxRecords ==>
      dns[i].address !in AfterOps(dns, DnsDiff(nodes, dns, maxRecords))
  {
    var inserts := SlicePrefix(nodes, maxRecords);
    var adds := Adds(inserts, AddressesOf(dns));
    var dels := Deletes(dns, AddressesOf(nodes), maxRecords);
    var ops := adds + dels;
    DeletesExactly(dns, AddressesOf(nodes), maxRecords);
    DeletesListed(dns, AddressesOf(nodes), maxRecords);
    forall a | a in AfterOps(dns, ops) ensures a in AddressesOf(nodes) {
      if op :| op in ops && op.AddRecord? && op.node.address == a {
        assert op in adds;
        var k :| 0 <= k < |inserts| && inserts[k] == op.node;
        assert AddressesOf(nodes)[k] == a;
      } else {
        var i :| 0 <= i < |dns| && DeleteRecord(dns[i]) !in ops && dns[i].address == a;
        assert DeleteRecord(dns[i]) !in dels;
      }
    }
    forall i | 0 <= i < |dns| && i >= maxRecords ensures dns[i].address !in AfterOps(dns, ops) {
      assert DeleteRecord(dns[i]) in dels;
      RecordGone(dns, ops, i);
    }
  }

  /** Nothing is added when every insert already has a record. */
  lemma {:induction false} NoAdds(inserts: seq<RpcNode>, dnsAddrs: seq<string>)
    requires forall k :: 0 <= k < |inserts| ==> inserts[k].address in dnsAddrs
    ensures Adds(inserts, dnsAddrs) == []
    decreases |inserts|
  {
    if |inserts| > 0 {
      NoAdds(inserts[..|inserts| - 1], dnsAddrs);
    }
  }

  /** Once DNS holds exactly the picked nodes, at most `maxRecords` of them,
      a pass changes nothing. */
  lemma SteadyState(nodes: seq<RpcNode>, dns: seq<RpcNode>, maxRecords: int)
    requires |dns| <= maxRecords
    requires forall a :: a in AddressesOf(dns) <==> a in AddressesOf(SlicePrefix(nodes, maxRecords))
    ensures DnsDiff(nodes, dns, maxRecords) == []
  {
    var inserts := SlicePrefix(nodes, maxRecords);
    forall k | 0 <= k < |inserts| ensures inserts[k].address in AddressesOf(dns) {
      assert AddressesOf(inserts)[k] == inserts[k].address;
    }
    NoAdds(inserts, AddressesOf(dns));
    NoDeletes(dns, nodes, maxRecords);
  }

  lemma {:induction false} NoDeletes(dns: seq<RpcNode>, nodes: seq<RpcNode>, maxRecords: int)
    requires |dns| <= maxRecords
    requires forall a :: a in AddressesOf(dns) ==> a in AddressesOf(SlicePrefix(nodes, maxRecords))
    ensures Deletes(dns, AddressesOf(nodes), maxRecords) == []
    decreases |dns|
  {
    if |dns| > 0 {
      var n := |dns| - 1;
      forall a | a in AddressesOf(dns[..n]) ensures a in AddressesOf(SlicePrefix(nodes, maxRecords)) {
        var k :| 0 <= k < n && AddressesOf(dns[..n])[k] == a;
        assert AddressesOf(dns)[k] == a;
      }
      NoDeletes(dns[..n], nodes, maxRecords);
      assert AddressesOf(dns)[n] == dns[n].address;
      var inserts := SlicePrefix(nodes, maxRecords);
      assert dns[n].address in AddressesOf(inserts);
      var k :| 0 <= k < |inserts| && AddressesOf(inserts)[k] == dns[n].address;
      assert inserts[k] == nodes[k];
      assert AddressesOf(nodes)[k] == dns[n].address;
    }
  }

  // ---------------------------------------------------------------------------
  // One pass of `main`

  /** Everything from outside that one pass of `main` consumes: the daemon's
      `print_height` output, the per-attempt replies of moneroblocks and
      xmrchain, the cache file (with dateutil's verdict on `dt` strings), the
      nodes' `/getheight` replies in the cache scan and in the peer scan, the
      clock, the daemon's `print_pl` output and the pattern's matches in it,
      whether writing the cache succeeds, and the permutation `random.shuffle`
      applies to a list of each length. */
  datatype PassInputs = PassInputs(
    daemonOutput: Option<string>, mbReplies: seq<Value>, xcReplies: seq<Value>,
    cache: CacheFile, parsable: string -> bool,
    probeCached: (string, int) -> Value, probePeers: (string, int) -> Value, now: string,
    peerOutput: Option<string>, peerMatches: seq<PeerMatch>,
    cacheWriteOk: bool, shuffle: nat -> seq<nat>)

  /** How a pass ends: no usable height, an exception (with what was written
      to the cache before it), or completed with the provider calls issued. */
  datatype PassOutcome =
    | NoHeight
    | PassRaised(written: Option<seq<CacheEntry>>)
    | PassDone(peersQueried: bool, written: Option<seq<CacheEntry>>, ops: seq<DnsOp>)

  /** A height `main` accepts: truthy and an int (a bool passes). */
  predicate UsableHeight(r: HeightResult)
  {
    r.Height? && Truthy(r.v) && IsInt(r.v)
  }

  /** The cached nodes that survive the first scan: the list `main` holds
      before deciding on peer discovery. */
  function Survivors(height: int, cached: seq<RpcNode>, probe: (string, int) -> Value, now: string): Option<seq<RpcNode>>
  {
    if |cached| > 0 then Scanned(height, cached, true, probe, now) else Some(cached)
  }

  /** The list after peer discovery: unchanged when more than two nodes
      survived, otherwise with the valid peers appended. */
  function WithPeers(height: int, survivors: seq<RpcNode>, inp: PassInputs): Option<seq<RpcNode>>
  {
    if |survivors| > 2 then Some(survivors)
    else
      var peers := PeersSpec(inp.peerOutput, inp.peerMatches);
      var found := if |peers| > 0 then Scanned(height, peers, true, inp.probePeers, inp.now) else Some(peers);
      match found
      case None => None
      case Some(f) => Some(survivors + Appended(AddressesOf(survivors), f))
  }

  /** One pass of `main` with height discovery `mode`, `maxRecords` DNS
      records, and `dns` the provider's `get_records()` (`None` when it
      returned `None`). */
  function PassSpec(mode: string, maxRecords: int, inp: PassInputs, dns: Option<seq<RpcNode>>): (r: PassOutcome)
    requires forall n: nat :: IsPermutation(inp.shuffle(n), n)
    ensures dns.None? ==> !r.PassDone?
  {
    var hr := HeightSpec(mode, DaemonTest(mode), inp.daemonOutput, inp.mbReplies, inp.xcReplies);
    if hr.HeightRaised? then PassRaised(None)
    else if !UsableHeight(hr) then NoHeight
    else
      var height := AsInt(hr.v);
      match CacheReadSpec(inp.cache, inp.parsable)
      case None => PassRaised(None)
      case Some(cached) =>
        match Survivors(height, cached, inp.probeCached, inp.now)
        case None => PassRaised(None)
        case Some(survivors) =>
          match WithPeers(height, survivors, inp)
          case None => PassRaised(None)
          case Some(nodes) =>
            if |nodes| > 0 && !inp.cacheWriteOk then PassRaised(None)
            else
              var written := if |nodes| > 0 then Some(CacheEntries(nodes)) else None;
              match dns
              case None => PassRaised(written)
              case Some(d) =>
                PassDone(|survivors| <= 2, written, DnsDiff(Permute(nodes, inp.shuffle(|nodes|)), d, maxRecords))
  }

  /** `main` touches neither the cache nor DNS unless the height is a truthy
      int. */
  lemma HeightGate(mode: string, maxRecords: int, inp: PassInputs, dns: Option<seq<RpcNode>>)
    requires forall n: nat :: IsPermutation(inp.shuffle(n), n)
    ensures PassSpec(mode, maxRecords, inp, dns) == NoHeight <==>
      HeightSpec(mode, DaemonTest(mode), inp.daemonOutput, inp.mbReplies, inp.xcReplies).Height? &&
      !UsableHeight(HeightSpec(mode, DaemonTest(mode), inp.daemonOutput, inp.mbReplies, inp.xcReplies))
    ensures PassSpec(mode, maxRecords, inp, dns).PassDone? ==>
      UsableHeight(HeightSpec(mode, DaemonTest(mode), inp.daemonOutput, inp.mbReplies, inp.xcReplies))
  {
  }

  /** The nodes `main` caches and publishes are valid, once each. */
  lemma PassNodesValid(height: int, cached: seq<RpcNode>, inp: PassInputs)
    requires Distinct(AddressesOf(cached))
    requires Survivors(height, cached, inp.probeCached, inp.now).Some?
    requires WithPeers(height, Survivors(height, cached, inp.probeCached, inp.now).value, inp).Some?
    ensures forall n :: n in WithPeers(height, Survivors(height, cached, inp.probeCached, inp.now).value, inp).value ==> n.valid
    ensures Distinct(AddressesOf(WithPeers(height, Survivors(height, cached, inp.probeCached, inp.now).value, inp).value))
  {
    var survivors := Survivors(height, cached, inp.probeCached, inp.now).value;
    if |cached| > 0 {
      ScannedValid(height, cached, inp.probeCached, inp.now);
    }
    WithPeersValid(height, survivors, inp);
  }

  lemma WithPeersValid(height: int, survivors: seq<RpcNode>, inp: PassInputs)
    requires Distinct(AddressesOf(survivors)) && forall n :: n in survivors ==> n.valid
    requires WithPeers(height, survivors, inp).Some?
    ensures forall n :: n in WithPeers(height, survivors, inp).value ==> n.valid
    ensures Distinct(AddressesOf(WithPeers(height, survivors, inp).value))
  {
    if |survivors| <= 2 {
      var peers := PeersSpec(inp.peerOutput, inp.peerMatches);
      if |peers| > 0 {
        PeersAreWhite(inp.peerOutput, inp.peerMatches);
        ScannedValid(height, peers, inp.probePeers, inp.now);
        AppendValid(survivors, Scanned(height, peers, true, inp.probePeers, inp.now).value);
      } else {
        AppendValid(survivors, peers);
      }
    }
  }

  /** Appending valid nodes to a list of valid nodes keeps every node valid
      and every address once. */
  lemma AppendValid(xs: seq<RpcNode>, f: seq<RpcNode>)
    requires Distinct(AddressesOf(xs)) && forall n :: n in xs ==> n.valid
    requires forall n :: n in f ==> n.valid
    ensures forall n :: n in xs + Appended(AddressesOf(xs), f) ==> n.valid
    ensures Distinct(AddressesOf(xs + Appended(AddressesOf(xs), f)))
  {
    AppendedAddresses(AddressesOf(xs), f);
    var added := Appended(AddressesOf(xs), f);
    assert AddressesOf(xs + added) == AddressesOf(xs) + AddressesOf(added);
  }

  /** Peers are asked for exactly when at most two cached nodes survive, and
      the cache is written exactly when some node is left. */
  lemma PeersOnlyWhenFew(mode: string, maxRecords: int, inp: PassInputs, dns: Option<seq<RpcNode>>)
    requires forall n: nat :: IsPermutation(inp.shuffle(n), n)
    requires PassSpec(mode, maxRecords, inp, dns).PassDone?
    ensures var hr := HeightSpec(mode, DaemonTest(mode), inp.daemonOutput, inp.mbReplies, inp.xcReplies);
      var cached := CacheReadSpec(inp.cache, inp.parsable).value;
      var survivors := Survivors(AsInt(hr.v), cached, inp.probeCached, inp.now).value;
      var nodes := WithPeers(AsInt(hr.v), survivors, inp).value;
      && (PassSpec(mode, maxRecords, inp, dns).peersQueried <==> |survivors| <= 2)
      && (PassSpec(mode, maxRecords, inp, dns).written.Some? <==> |nodes| > 0)
      && (|survivors| > 2 ==> nodes == survivors)
  {
  }

  /** With no valid node at all, `main` deletes every DNS record and adds
      none. */
  lemma NoValidNodesClearsDns(mode: string, maxRecords: int, inp: PassInputs, d: seq<RpcNode>)
    requires forall n: nat :: IsPermutation(inp.shuffle(n), n)
    requires PassSpec(mode, maxRecords, inp, Some(d)).PassDone?
    requires var hr := HeightSpec(mode, DaemonTest(mode), inp.daemonOutput, inp.mbReplies, inp.xcReplies);
      var survivors := Survivors(AsInt(hr.v), CacheReadSpec(inp.cache, inp.parsable).value, inp.probeCached, inp.now).value;
      WithPeers(AsInt(hr.v), survivors, inp).value == []
    ensures PassSpec(mode, maxRecords, inp, Some(d)).ops == seq(|d|, i requires 0 <= i < |d| => DeleteRecord(d[i]))
  {
    var none: seq<RpcNode> := [];
    assert Permute(none, inp.shuffle(0)) == [];
    NoNodesDeletesAll(d, maxRecords);
  }

  /** The engine: the height discovery method, the provider's `max_records`,
      and the reference height `main` stores. */
  class Moneriote {
    const heightMethod: string
    const maxRecords: int
    var blockchainHeight: Value

    constructor (heightMethod: string, maxRecords: int)
      ensures this.heightMethod == heightMethod && this.maxRecords == maxRecords
      ensures blockchainHeight == Nil
    {
      this.heightMethod := heightMethod;
      this.maxRecords := maxRecords;
      blockchainHeight := Nil;
    }

    /** `Moneriote(...)`: an unknown height discovery method is fatal. */
    static method Create(heightMethod: string, maxRecords: int) returns (exit: bool, m: Moneriote?)
      ensures exit <==> heightMethod !in HeightMethods
      ensures exit <==> m == null
      ensures m != null ==> fresh(m) && m.heightMethod == heightMethod && m.maxRecords == maxRecords && m.blockchainHeight == Nil
    {
      if heightMethod !in HeightMethods {
        return true, null;
      }
      m := new Moneriote(heightMethod, maxRecords);
      exit := false;
    }

    /** The moneroblocks loop of `monerod_get_height`: up to six requests,
        stopping at the first dictionary reply. */
    method PollMoneroblocks(mb: seq<Value>) returns (height: Option<Value>, requests: nat)
      ensures height == MoneroblocksHeight(mb)
      ensures requests == if FirstDict(mb, 0).Some? then FirstDict(mb, 0).value + 1 else MaxRetries + 1
    {
      height := None;
      requests := 0;
      var retries := 0;
      while retries <= MaxRetries
        invariant 0 <= retries <= MaxRetries + 1
        invariant requests == retries
        invariant FirstDict(mb, 0) == FirstDict(mb, retries)
        decreases MaxRetries + 1 - retries
      {
        var blob := ReplyAt(mb, retries);
        requests := requests + 1;
        if blob.Dict? {
          height := Some(Get(blob, "height", Nil).value);
          return;
        }
        retries := retries + 1;
      }
    }

    /** The xmrchain loop of `monerod_get_height`: up to six requests,
        stopping at the first integer height with status `success`; `ok`
        says whether one came. */
    method PollXmrchain(xc: seq<Value>) returns (height: Option<Value>, ok: bool, requests: nat)
      ensures ok <==> FirstXcOk(xc, 0).Some?
      ensures height == XmrchainHeight(xc)
      ensures ok ==> height == Some(XcAttemptOf(ReplyAt(xc, FirstXcOk(xc, 0).value)).h)
      ensures requests == if ok then FirstXcOk(xc, 0).value + 1 else MaxRetries + 1
    {
      height, ok, requests := None, false, 0;
      var retries := 0;
      while retries <= MaxRetries
        invariant 0 <= retries <= MaxRetries + 1
        invariant requests == retries
        invariant FirstXcOk(xc, 0) == FirstXcOk(xc, retries)
        invariant height == XcStore(xc, retries)
        decreases MaxRetries + 1 - retries
      {
        var blob := ReplyAt(xc, retries);
        requests := requests + 1;
        if blob.Dict? && Get(blob, "status", Nil) == Some(Str("success")) {
          var d := Get(blob, "data", Dict(map[])).value;
          if d.Dict? {
            var h := Get(d, "height", Nil).value;
            height := Some(h);
            if IsInt(h) {
              ok := true;
              return;
            }
          }
        }
        retries := retries + 1;
      }
    }

    /** `monerod_get_height(method=mode)`, with the daemon test as intended;
        `mbRequests` and `xcRequests` count the requests made to each site.
        The values are collected in `data`'s insertion order. */
    method MonerodGetHeight(mode: string, output: Option<string>, mb: seq<Value>, xc: seq<Value>)
      returns (r: HeightResult, mbRequests: nat, xcRequests: nat)
      ensures r == HeightSpec(mode, DaemonTest(mode), output, mb, xc)
      ensures mbRequests <= MaxRetries + 1 && xcRequests <= MaxRetries + 1
      ensures mode !in ["compare", "moneroblocks"] ==> mbRequests == 0
      ensures mode !in ["compare", "xmrchain"] ==> xcRequests == 0
    {
      mbRequests, xcRequests := 0, 0;
      var md := DaemonSilent;
      if DaemonTest(mode) {
        md := ReadDaemonHeight(output);
        if md.DaemonRaised? {
          return HeightRaised, 0, 0;
        }
        if md.DaemonHeight? && mode == "monerod" {
          return Height(Int(md.n)), 0, 0;
        }
      }
      var mbHeight: Option<Value> := None;
      if mode in ["compare", "moneroblocks"] {
        mbHeight, mbRequests := PollMoneroblocks(mb);
      }
      var xcHeight: Option<Value> := None;
      if mode in ["compare", "xmrchain"] {
        var ok;
        xcHeight, ok, xcRequests := PollXmrchain(xc);
        if ok && mode == "xmrchain" {
          return Height(xcHeight.value), mbRequests, xcRequests;
        }
      }
      var vs := CollectedValues(if md.DaemonHeight? then Some(Int(md.n)) else None, mbHeight, xcHeight);
      if |vs| == 0 {
        r := Height(Nil);
      } else {
        match MaxOf(vs)
        case None => r := HeightRaised;
        case Some(v) => r := Height(v);
      }
    }

    /** `scan(nodes, remove_invalid)` against the reference height `main`
        stored; an empty input comes back as the same object. `raised` when
        a worker raised. */
    method Scan(nodes: RpcNodeList, removeInvalid: bool, probe: (string, int) -> Value, now: string)
      returns (raised: bool, r: RpcNodeList)
      requires nodes.Valid() && IsInt(blockchainHeight)
      ensures |nodes.nodes| == 0 ==> !raised && r == nodes
      ensures |nodes.nodes| > 0 ==>
        (raised <==> Scanned(AsInt(blockchainHeight), nodes.nodes, removeInvalid, probe, now).None?)
      ensures |nodes.nodes| > 0 && !raised ==>
        fresh(r) && r.Valid() && r.InOrder() && r.nodes == Scanned(AsInt(blockchainHeight), nodes.nodes, removeInvalid, probe, now).value
    {
      if nodes.Length() == 0 {
        return false, nodes;
      }
      var results := ScanAll(AsInt(blockchainHeight), nodes.nodes, probe, now);
      if results.None? {
        return true, nodes;
      }
      DedupOfDistinct(results.value);
      r := RpcNodeList.FromList(results.value);
      if removeInvalid {
        r := r.ValidNodes(true);
      }
      raised := false;
    }

    /** `monerod_get_peers()` given the daemon's `print_pl` output and the
        pattern's matches in it. */
    method MonerodGetPeers(output: Option<string>, matches: seq<PeerMatch>) returns (l: RpcNodeList)
      ensures fresh(l) && l.Valid() && l.InOrder()
      ensures l.nodes == PeersSpec(output, matches)
    {
      l := new RpcNodeList();
      if output.None? || |output.value| == 0 {
        return;
      }
      var i := 0;
      while i < |matches|
        invariant 0 <= i <= |matches|
        invariant fresh(l) && l.Valid() && l.InOrder()
        invariant l.nodes == Dedup(WhitePeers(matches[..i]))
      {
        assert matches[..i + 1][..i] == matches[..i];
        ghost var w := WhitePeers(matches[..i]);
        if matches[i].colour == "white" {
          assert WhitePeers(matches[..i + 1]) == w + [NewNode(matches[i].ip)];
          AppendedSnoc(w, NewNode(matches[i].ip));
          l.Append(NewNode(matches[i].ip));
        } else {
          assert WhitePeers(matches[..i + 1]) == w;
        }
        i := i + 1;
      }
      assert matches[..i] == matches;
    }

    /** The two loops at the end of `main`: add the first `maxRecords` nodes
        missing from DNS, then delete the records of unlisted nodes and those
        beyond `maxRecords`. */
    method Reconcile(nodes: RpcNodeList, dnsNodes: RpcNodeList) returns (ops: seq<DnsOp>)
      requires nodes.Valid() && dnsNodes.Valid()
      ensures ops == DnsDiff(nodes.nodes, dnsNodes.nodes, maxRecords)
    {
      var adds := AddMissing(SlicePrefix(nodes.nodes, maxRecords), dnsNodes);
      var deletes := DeleteStale(nodes, dnsNodes);
      ops := adds + deletes;
    }

    /** The insert loop of `main`. */
    method AddMissing(inserts: seq<RpcNode>, dnsNodes: RpcNodeList) returns (ops: seq<DnsOp>)
      requires dnsNodes.Valid()
      ensures ops == Adds(inserts, AddressesOf(dnsNodes.nodes))
    {
      ops := [];
      var i := 0;
      while i < |inserts|
        invariant 0 <= i <= |inserts|
        invariant ops == Adds(inserts[..i], AddressesOf(dnsNodes.nodes))
      {
        assert inserts[..i + 1][..i] == inserts[..i];
        if !dnsNodes.Contains(inserts[i].address) {
          ops := ops + [AddRecord(inserts[i])];
        }
        i := i + 1;
      }
      assert inserts[..i] == inserts;
    }

    /** The removal loop of `main`. */
    method DeleteStale(nodes: RpcNodeList, dnsNodes: RpcNodeList) returns (ops: seq<DnsOp>)
      requires nodes.Valid()
      ensures ops == Deletes(dnsNodes.nodes, AddressesOf(nodes.nodes), maxRecords)
    {
      var dns := dnsNodes.nodes;
      ops := [];
      var j := 0;
      while j < |dns|
        invariant 0 <= j <= |dns|
        invariant ops == Deletes(dns[..j], AddressesOf(nodes.nodes), maxRecords)
      {
        assert dns[..j + 1][..j] == dns[..j];
        if !nodes.Contains(dns[j].address) || j >= maxRecords {
          ops := ops + [DeleteRecord(dns[j])];
        }
        j := j + 1;
      }
      assert dns[..j] == dns;
    }

    /** The middle of `main`: load the cache, re-scan it, and discover and
        scan peers when at most two cached nodes survive. `raised` when any
        of it raised. */
    method Refresh(inp: PassInputs) returns (raised: bool, nodes: RpcNodeList, peersQueried: bool)
      requires IsInt(blockchainHeight)
      ensures raised <==>
        CacheReadSpec(inp.cache, inp.parsable).None? ||
        Survivors(AsInt(blockchainHeight), CacheReadSpec(inp.cache, inp.parsable).value, inp.probeCached, inp.now).None? ||
        WithPeers(AsInt(blockchainHeight),
                  Survivors(AsInt(blockchainHeight), CacheReadSpec(inp.cache, inp.parsable).value, inp.probeCached, inp.now).value,
                  inp).None?
      ensures !raised ==> fresh(nodes) && nodes.Valid()
      ensures !raised ==>
        var survivors := Survivors(AsInt(blockchainHeight), CacheReadSpec(inp.cache, inp.parsable).value, inp.probeCached, inp.now).value;
        peersQueried == (|survivors| <= 2) && nodes.nodes == WithPeers(AsInt(blockchainHeight), survivors, inp).value
    {
      peersQueried := false;
      raised, nodes := LoadCached(inp);
      if raised {
        return;
      }
      peersQueried := nodes.Length() <= 2;
      if peersQueried {
        raised := AddPeers(nodes, inp);
      }
    }

    /** `nodes = RpcNodeList(); nodes += cache_read(...)`, then the re-scan
        when the list is not empty. */
    method LoadCached(inp: PassInputs) returns (raised: bool, nodes: RpcNodeList)
      requires IsInt(blockchainHeight)
      ensures raised <==>
        CacheReadSpec(inp.cache, inp.parsable).None? ||
        Survivors(AsInt(blockchainHeight), CacheReadSpec(inp.cache, inp.parsable).value, inp.probeCached, inp.now).None?
      ensures !raised ==> fresh(nodes) && nodes.Valid() && nodes.InOrder()
      ensures !raised ==>
        nodes.nodes == Survivors(AsInt(blockchainHeight), CacheReadSpec(inp.cache, inp.parsable).value, inp.probeCached, inp.now).value
    {
      nodes := new RpcNodeList();
      var cached;
      raised, cached := RpcNodeList.CacheRead(inp.cache, inp.parsable);
      if raised {
        return;
      }
      DedupOfDistinct(cached.nodes);
      var _ := nodes.AddList(cached);
      assert nodes.nodes == cached.nodes;
      if nodes.Length() > 0 {
        raised, nodes := Scan(nodes, true, inp.probeCached, inp.now);
      }
    }

    /** `nodes += scan(monerod_get_peers(), remove_invalid=True)`. */
    method AddPeers(nodes: RpcNodeList, inp: PassInputs) returns (raised: bool)
      requires IsInt(blockchainHeight) && nodes.Valid() && nodes.InOrder() && |nodes.nodes| <= 2
      modifies nodes
      ensures raised <==> WithPeers(AsInt(blockchainHeight), old(nodes.nodes), inp).None?
      ensures nodes.Valid()
      ensures !raised ==> nodes.nodes == WithPeers(AsInt(blockchainHeight), old(nodes.nodes), inp).value
    {
      var peers := MonerodGetPeers(inp.peerOutput, inp.peerMatches);
      var found;
      raised, found := Scan(peers, true, inp.probePeers, inp.now);
      if raised {
        return;
      }
      var _ := nodes.AddList(found);
    }

    /** `main()`: one pass, given the outside world `inp` and the provider's
        `get_records()` result (`null` for `None`). */
    method Run(inp: PassInputs, dnsNodes: RpcNodeList?) returns (outcome: PassOutcome)
      requires forall n: nat :: IsPermutation(inp.shuffle(n), n)
      requires dnsNodes != null ==> dnsNodes.Valid()
      modifies this
      ensures outcome == PassSpec(heightMethod, maxRecords, inp, if dnsNodes == null then None else Some(dnsNodes.nodes))
      ensures var hr := HeightSpec(heightMethod, DaemonTest(heightMethod), inp.daemonOutput, inp.mbReplies, inp.xcReplies);
        blockchainHeight == if UsableHeight(hr) then hr.v else old(blockchainHeight)
    {
      var hr, _, _ := MonerodGetHeight(heightMethod, inp.daemonOutput, inp.mbReplies, inp.xcReplies);
      if hr.HeightRaised? {
        return PassRaised(None);
      }
      if !Truthy(hr.v) || !IsInt(hr.v) {
        return NoHeight;
      }
      blockchainHeight := hr.v;

      var raised, nodes, peersQueried := Refresh(inp);
      if raised {
        return PassRaised(None);
      }

      var written: Option<seq<CacheEntry>> := None;
      if nodes.Length() > 0 {
        written := nodes.CacheWrite(inp.cacheWriteOk);
        if written.None? {
          return PassRaised(None);
        }
      }

      nodes.Shuffle(inp.shuffle(nodes.Length()));
      if dnsNodes == null {
        return PassRaised(written);
      }
      var ops := Reconcile(nodes, dnsNodes);
      outcome := PassDone(peersQueried, written, ops);
    }
  }
}
