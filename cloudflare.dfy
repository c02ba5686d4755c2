/** moneriote/dns/cloudflare.py: the Cloudflare provider. It finds the zone
    of the domain, lists the A records of the full name, and creates and
    deletes records one by one. */
module Cloudflare {
  import opened Values
  import opened Strings
  import opened Utils
  import opened Rpc
  import opened Dns

  /** `max_retries` in `get_records`: six attempts in all. */
  const MaxRetries: nat := 5
  /** The TTL of an inserted record, in seconds. */
  const RecordTtl: int := 120

  // ---------------------------------------------------------------------------
  // Zone selection

  /** The constructor's zone lookup: an uncaught exception, no zone with the
      domain's name (a fatal exit), or the `id` of the first one that has it. */
  datatype ZoneOutcome = ZoneRaised | ZoneMissing | ZoneFound(id: Value)

  predicate NamesDomain(zone: Value, domain: Value)
  {
    zone.Dict? && Get(zone, "name", Nil) == Some(domain)
  }

  /** `next(zone.get('id') for zone in zones if zone.get('name') == domain)`:
      the generator stops at the first match, so later zones are never
      looked at; a zone before it that is not a dictionary raises. */
  function FirstZone(zones: seq<Value>, domain: Value): (r: ZoneOutcome)
    ensures r.ZoneFound? ==>
              (exists k :: 0 <= k < |zones| && NamesDomain(zones[k], domain)
                 && Get(zones[k], "id", Nil) == Some(r.id)
                 && forall j :: 0 <= j < k ==> zones[j].Dict? && !NamesDomain(zones[j], domain))
    ensures r.ZoneMissing? <==> forall k :: 0 <= k < |zones| ==> zones[k].Dict? && !NamesDomain(zones[k], domain)
  {
    if |zones| == 0 then ZoneMissing
    else if !zones[0].Dict? then ZoneRaised
    else if NamesDomain(zones[0], domain) then ZoneFound(Get(zones[0], "id", Nil).value)
    else
      var r := FirstZone(zones[1..], domain);
      assert forall k :: 1 <= k < |zones| ==> zones[k] == zones[1..][k - 1];
      r
  }

  /** The lookup over the body of the zone listing (`None` when the request
      failed): `result.get('result')` raises on a non-dictionary, and the
      loop iterates a list's items, a dictionary's keys or a string's
      characters (each of which raises on `.get`), and raises on anything
      else. */
  function SelectZone(result: Value, domain: Value): ZoneOutcome
  {
    var zones := Get(result, "result", Nil);
    if zones.None? then ZoneRaised
    else
      match zones.value
      case List(items) => FirstZone(items, domain)
      case Dict(entries) => if |entries| == 0 then ZoneMissing else ZoneRaised
      case Str(s) => if |s| == 0 then ZoneMissing else ZoneRaised
      case _ => ZoneRaised
  }

  /** What `make_json_request` returns for a `GET`: it never raises. */
  function ListingBody(reply: HttpReply): (v: Value)
    ensures MakeJsonRequest("GET", reply) == Returned(v)
  {
    assert Lower("GET") == "get";
    MakeJsonRequest("GET", reply).v
  }

  /** A failed zone listing (`make_json_request` gives `None`) makes the
      constructor raise rather than exit cleanly, and the first matching zone
      wins over later ones. */
  lemma ZoneSelection(domain: Value, id1: Value, id2: Value)
    ensures SelectZone(Nil, domain) == ZoneRaised
    ensures SelectZone(Dict(map["result" := List([])]), domain) == ZoneMissing
    ensures SelectZone(Dict(map["result" := List([
              Dict(map["name" := domain, "id" := id1]),
              Dict(map["name" := domain, "id" := id2])])]), domain) == ZoneFound(id1)
  {
    var z1 := Dict(map["name" := domain, "id" := id1]);
    var z2 := Dict(map["name" := domain, "id" := id2]);
    assert NamesDomain(z1, domain);
    assert FirstZone([z1, z2], domain) == ZoneFound(id1);
  }

  // ---------------------------------------------------------------------------
  // get_records

  /** One element of the `result` list: not a dictionary (`.get` raises), or
      a record's `type`, `name`, `content` and `id`. */
  datatype CfRecord = CfNotADict | CfRecord(rtype: Value, name: Value, content: string, id: Value)

  /** One attempt's answer: unusable (the request failed, the body is not a
      dictionary or its `result` is not iterable), or the elements of
      `result`. A dictionary or string `result` iterates as its keys or
      characters: `[]` when empty, else a first element that raises. */
  datatype CfListing = CfUnusable | CfRecords(records: seq<CfRecord>)

  function AttemptAt(attempts: seq<CfListing>, k: nat): CfListing
  {
    if k < |attempts| then attempts[k] else CfUnusable
  }

  /** Where the loop over the records raises: the first element that is not
      a dictionary, or the end. */
  function FirstBad(rs: seq<CfRecord>): (r: nat)
    ensures r <= |rs|
    ensures forall j :: 0 <= j < r ==> rs[j].CfRecord?
    ensures r < |rs| ==> rs[r].CfNotADict?
  {
    if |rs| == 0 || rs[0].CfNotADict? then 0
    else
      var r := FirstBad(rs[1..]);
      assert forall j :: 1 <= j < |rs| ==> rs[j] == rs[1..][j - 1];
      r + 1
  }

  /** The record is an A record of the full name. */
  predicate Selected(r: CfRecord, full: string)
  {
    r.CfRecord? && r.rtype == Str("A") && r.name == Str(full)
  }

  /** `RpcNode(address=content, uid=id)` for each selected record, in order. */
  function Matching(rs: seq<CfRecord>, full: string): seq<RpcNode>
  {
    if |rs| == 0 then []
    else
      var r := rs[|rs| - 1];
      Matching(rs[..|rs| - 1], full) + (if Selected(r, full) then [NewNode(r.content, r.id)] else [])
  }

  /** The nodes one attempt appends before it completes or raises. */
  function Taken(l: CfListing, full: string): seq<RpcNode>
  {
    if l.CfUnusable? then [] else Matching(l.records[..FirstBad(l.records)], full)
  }

    /** The first non-dict record is at `i` when the records before it are
      dicts and `i` is the end or holds a non-dict. */
  lemma {:induction false} FirstBadAt(rs: seq<CfRecord>, i: nat)
    requires i <= |rs|
    requires forall j :: 0 <= j < i ==> rs[j].CfRecord?
    requires i < |rs| ==> rs[i].CfNotADict?
    ensures FirstBad(rs) == i
    decreases i
  {
    if i > 0 {
      assert rs[0].CfRecord?;
      FirstBadAt(rs[1..], i - 1);
    }
  }

  /** The selected nodes of one more record. */
  lemma MatchingSnoc(rs: seq<CfRecord>, i: nat, full: string)
    requires i < |rs|
    ensures Matching(rs[..i + 1], full)
      == Matching(rs[..i], full) + (if Selected(rs[i], full) then [NewNode(rs[i].content, rs[i].id)] else [])
  {
    assert rs[..i + 1][..i] == rs[..i];
  }

/** The attempt reaches `return nodes`. */
  predicate Completed(l: CfListing)
  {
    l.CfRecords? && FirstBad(l.records) == |l.records|
  }

  /** The attempts from `k` on, with `acc` appended so far (the node list is
      created once, before the loop, so a failed attempt's nodes stay). */
  function Fetch(attempts: seq<CfListing>, full: string, k: nat, acc: seq<RpcNode>): Option<seq<RpcNode>>
    decreases MaxRetries + 1 - k
  {
    if k > MaxRetries then None
    else
      var l := AttemptAt(attempts, k);
      var next := acc + Taken(l, full);
      if Completed(l) then Some(Dedup(next)) else Fetch(attempts, full, k + 1, next)
  }

    /** A listing holding one A record of the full name completes on the
      first attempt and yields that record's node. */
  lemma SingleRecordListed(full: string, address: string, id: Value)
    ensures GetRecordsSpec([CfRecords([CfRecord(Str("A"), Str(full), address, id)])], full)
      == Some([NewNode(address, id)])
  {
    var listed := CfRecord(Str("A"), Str(full), address, id);
    var l := CfRecords([listed]);
    var node := NewNode(address, id);
    assert FirstBad([listed]) == 1 by {
      assert [listed][1..] == [];
    }
    assert Completed(l);
    assert Matching([listed], full) == [node] by {
      assert [listed][..0] == [];
    }
    assert Taken(l, full) == [node] by {
      assert [listed][..1] == [listed];
    }
    assert AttemptAt([l], 0) == l;
    assert Fetch([l], full, 0, []) == Some(Dedup([] + [node]));
    assert [] + [node] == [node];
    SingleDedup(node);
  }

/** `get_records()` answered by `attempts`. */
  function GetRecordsSpec(attempts: seq<CfListing>, full: string): Option<seq<RpcNode>>
  {
    Fetch(attempts, full, 0, [])
  }

  /** The node came from a selected record of the listing. */
  ghost predicate FromRecord(n: RpcNode, rs: seq<CfRecord>, full: string)
  {
    exists r :: r in rs && Selected(r, full) && n == NewNode(r.content, r.id)
  }

  lemma {:induction false} MatchingFromRecord(rs: seq<CfRecord>, full: string)
    ensures forall n :: n in Matching(rs, full) ==> FromRecord(n, rs, full)
    decreases |rs|
  {
    if |rs| > 0 {
      var init := rs[..|rs| - 1];
      MatchingFromRecord(init, full);
      forall n | n in Matching(rs, full)
        ensures FromRecord(n, rs, full)
      {
        if n in Matching(init, full) {
          var r :| r in init && Selected(r, full) && n == NewNode(r.content, r.id);
          assert r in rs;
        } else {
          assert rs[|rs| - 1] in rs;
        }
      }
    }
  }

  /** Six failed attempts give `None`, and only they do. */
  lemma {:induction false} FetchNone(attempts: seq<CfListing>, full: string, k: nat, acc: seq<RpcNode>)
    ensures Fetch(attempts, full, k, acc).None? <==>
      forall j :: k <= j <= MaxRetries ==> !Completed(AttemptAt(attempts, j))
    decreases MaxRetries + 1 - k
  {
    if k <= MaxRetries {
      FetchNone(attempts, full, k + 1, acc + Taken(AttemptAt(attempts, k), full));
    }
  }

  /** Every node returned comes from a selected record of one of the six
      attempts (or was given), once per address. */
  lemma {:induction false} FetchFiltered(attempts: seq<CfListing>, full: string, k: nat, acc: seq<RpcNode>)
    requires Fetch(attempts, full, k, acc).Some?
    ensures Distinct(AddressesOf(Fetch(attempts, full, k, acc).value))
    ensures forall n :: n in Fetch(attempts, full, k, acc).value ==>
      n in acc || exists j :: k <= j <= MaxRetries && AttemptAt(attempts, j).CfRecords?
                              && FromRecord(n, AttemptAt(attempts, j).records, full)
    decreases MaxRetries + 1 - k
  {
    var l := AttemptAt(attempts, k);
    var next := acc + Taken(l, full);
    if l.CfRecords? {
      MatchingFromRecord(l.records[..FirstBad(l.records)], full);
      forall n | n in Taken(l, full)
        ensures FromRecord(n, l.records, full)
      {
        var r :| r in l.records[..FirstBad(l.records)] && Selected(r, full) && n == NewNode(r.content, r.id);
        assert r in l.records;
      }
    }
    if Completed(l) {
      DedupAddresses(next);
    } else {
      FetchFiltered(attempts, full, k + 1, next);
    }
  }

  /** `get_records()` gives `None` exactly when six attempts fail; otherwise
      A records of the full name only, each address once. */
  lemma GetRecordsContract(attempts: seq<CfListing>, full: string)
    ensures GetRecordsSpec(attempts, full).None? <==>
      forall j :: 0 <= j <= MaxRetries ==> !Completed(AttemptAt(attempts, j))
    ensures GetRecordsSpec(attempts, full).Some? ==>
      Distinct(AddressesOf(GetRecordsSpec(attempts, full).value))
      && forall n :: n in GetRecordsSpec(attempts, full).value ==>
           !n.valid && exists j :: 0 <= j <= MaxRetries && AttemptAt(attempts, j).CfRecords?
                                   && FromRecord(n, AttemptAt(attempts, j).records, full)
  {
    FetchNone(attempts, full, 0, []);
    if GetRecordsSpec(attempts, full).Some? {
      FetchFiltered(attempts, full, 0, []);
    }
  }

  /** An attempt that raises part-way leaves the records it had appended in
      the result of a later attempt, even one whose listing is empty. */
  lemma PartialAttemptKept(full: string, address: string, id: Value)
    ensures GetRecordsSpec([CfRecords([CfRecord(Str("A"), Str(full), address, id), CfNotADict]), CfRecords([])], full)
         == Some([NewNode(address, id)])
  {
    var good := CfRecord(Str("A"), Str(full), address, id);
    var node := NewNode(address, id);
    var first := CfRecords([good, CfNotADict]);
    var second := CfRecords([]);
    var attempts := [first, second];
    assert FirstBad(first.records) == 1;
    assert first.records[..1] == [good];
    assert Matching([good], full) == [node] by {
      assert [good][..0] == [];
      assert Selected(good, full);
    }
    assert Taken(first, full) == Matching(first.records[..1], full);
    assert !Completed(first);
    assert Fetch(attempts, full, 0, []) == Fetch(attempts, full, 1, [node]);
    assert Completed(second) && Taken(second, full) == [];
    assert Fetch(attempts, full, 1, [node]) == Some(Dedup([node] + []));
    assert [node] + [] == [node];
    SingleDedup(node);
  }

  lemma SingleDedup(n: RpcNode)
    ensures Dedup([n]) == [n]
  {
    assert [n][..0] == [];
    assert Appended([], [n][..0]) == [];
  }

  // ---------------------------------------------------------------------------
  // add_record and delete_record

  /** A `POST` never raises in `make_json_request`: `add_record` always
      returns normally, whatever the answer. */
  lemma AddRecordNeverRaises(reply: HttpReply)
    ensures MakeJsonRequest("POST", reply).Returned?
  {
    assert Lower("POST") == "post";
  }

  /** `delete_record`'s result for the `DELETE` answer: the body's `result`
      when its `success` is the boolean `True` itself, else `None` (the
      failed assertion, or `.get` on `None`, is caught). */
  function DeleteOutcome(reply: HttpReply): (r: Value)
    ensures r != Nil ==>
              Succeeded(reply) && reply.body.value.Dict? && Get(reply.body.value, "success", Nil) == Some(Bool(true))
    ensures Succeeded(reply) && reply.body.value.Dict? && Get(reply.body.value, "success", Nil) == Some(Bool(true)) ==>
              r == Get(reply.body.value, "result", Nil).value
  {
    assert Lower("DELETE") == "delete";
    var data := MakeJsonRequest("DELETE", reply).v;
    if !data.Dict? || Get(data, "success", Nil).value != Bool(true) then Nil
    else Get(data, "result", Nil).value
  }

  /** `success: 1` does not count (the test is `is True`, not `== True`),
      and a confirmed deletion returns the body's `result`. */
  lemma DeleteNeedsTrue(result: Value)
    ensures DeleteOutcome(Response(200, Some(Dict(map["success" := Int(1), "result" := result])))) == Nil
    ensures DeleteOutcome(Response(200, Some(Dict(map["success" := Bool(true), "result" := result])))) == result
    ensures DeleteOutcome(Response(404, Some(Dict(map["success" := Bool(true), "result" := result])))) == Nil
  {
    assert Lower("DELETE") == "delete";
  }

  /** A provider bound to the zone it found. */
  class CloudflareProvider {
    const provider: DnsProvider
    const zoneId: Value

    constructor (provider: DnsProvider, zoneId: Value)
      ensures this.provider == provider && this.zoneId == zoneId
    {
      this.provider := provider;
      this.zoneId := zoneId;
    }

    /** `Cloudflare(**kwargs)`: look the zone up; a provider exists only when
        it was found. */
    static method Create(provider: DnsProvider, zonesReply: HttpReply) returns (zone: ZoneOutcome, cf: CloudflareProvider?)
      ensures zone == SelectZone(ListingBody(zonesReply), SettingValue(provider.domainName))
      ensures cf != null <==> zone.ZoneFound?
      ensures cf != null ==> cf.provider == provider && cf.zoneId == zone.id
    {
      var result := ListingBody(zonesReply);
      zone := SelectZone(result, SettingValue(provider.domainName));
      cf := null;
      if zone.ZoneFound? {
        cf := new CloudflareProvider(provider, zone.id);
      }
    }

    /** The body `add_record` posts: the bare subdomain as the name (the zone
        qualifies it), the node's address, type A and a TTL of 120. */
    function InsertionBody(node: RpcNode): (body: map<string, Value>)
    {
      map["name" := SettingValue(provider.subdomainName), "content" := Str(node.address),
          "type" := Str("A"), "ttl" := Int(RecordTtl)]
    }

    /** The record Cloudflare lists after an insertion (type A, the full
        name, the posted address) is read back by `get_records` as the node
        that was inserted, fresh and with the record's id. */
    lemma InsertedRecordListed(node: RpcNode, id: Value)
      ensures var body := InsertionBody(node);
        var listed := CfRecord(body["type"], Str(FullDomainName(provider)), body["content"].s, id);
        GetRecordsSpec([CfRecords([listed])], FullDomainName(provider)) == Some([NewNode(node.address, id)])
    {
      SingleRecordListed(FullDomainName(provider), node.address, id);
    }

    /** `get_records()`: up to six attempts; the nodes of every attempt go
        into one list, which the first attempt to finish its loop returns. */
    method GetRecords(attempts: seq<CfListing>) returns (r: RpcNodeList?, requests: nat)
      ensures requests <= MaxRetries + 1
      ensures r == null <==> GetRecordsSpec(attempts, FullDomainName(provider)).None?
      ensures r != null ==> r.Valid() && r.InOrder() && r.nodes == GetRecordsSpec(attempts, FullDomainName(provider)).value
    {
      var full := FullDomainName(provider);
      var nodes := new RpcNodeList();
      ghost var acc: seq<RpcNode> := [];
      var retries := 0;
      requests := 0;
      while retries <= MaxRetries
        invariant requests == retries <= MaxRetries + 1
        invariant nodes.Valid() && nodes.InOrder() && nodes.nodes == Dedup(acc)
        invariant Fetch(attempts, full, 0, []) == Fetch(attempts, full, retries, acc)
        decreases MaxRetries + 1 - retries
      {
        requests := requests + 1;
        var listing := if retries < |attempts| then attempts[retries] else CfUnusable;
        var completed;
        completed, acc := AppendRecords(nodes, listing, full, acc);
        if completed {
          return nodes, requests;
        }
        retries := retries + 1;
      }
      return null, requests;
    }

    /** The loop over one attempt's records: append the selected ones until
        the end or an element that raises. */
    static method AppendRecords(nodes: RpcNodeList, listing: CfListing, full: string, ghost acc: seq<RpcNode>)
      returns (completed: bool, ghost acc': seq<RpcNode>)
      requires nodes.Valid() && nodes.InOrder() && nodes.nodes == Dedup(acc)
      modifies nodes
      ensures nodes.Valid() && nodes.InOrder()
      ensures acc' == acc + Taken(listing, full) && nodes.nodes == Dedup(acc')
      ensures completed == Completed(listing)
    {
      acc' := acc;
      if listing.CfUnusable? {
        return false, acc';
      }
      var rs := listing.records;
      var i := 0;
      while i < |rs|
        invariant 0 <= i <= |rs|
        invariant forall j :: 0 <= j < i ==> rs[j].CfRecord?
        invariant nodes.Valid() && nodes.InOrder()
        invariant acc' == acc + Matching(rs[..i], full) && nodes.nodes == Dedup(acc')
      {
        var record := rs[i];
        if record.CfNotADict? {
          FirstBadAt(rs, i);
          return false, acc';
        }
        MatchingSnoc(rs, i, full);
        acc' := AppendRecord(nodes, record, full, acc');
        i := i + 1;
      }
      FirstBadAt(rs, i);
      assert rs[..i] == rs;
      completed := true;
    }

    /** One turn of the record loop: a selected record's node is appended
        unless its address is already listed. */
    static method AppendRecord(nodes: RpcNodeList, record: CfRecord, full: string, ghost acc: seq<RpcNode>)
      returns (ghost acc': seq<RpcNode>)
      requires record.CfRecord?
      requires nodes.Valid() && nodes.InOrder() && nodes.nodes == Dedup(acc)
      modifies nodes
      ensures nodes.Valid() && nodes.InOrder()
      ensures acc' == acc + (if Selected(record, full) then [NewNode(record.content, record.id)] else [])
      ensures nodes.nodes == Dedup(acc')
    {
      acc' := acc;
      if Selected(record, full) {
        var node := NewNode(record.content, record.id);
        AppendedSnoc(acc, node);
        nodes.Append(node);
        acc' := acc + [node];
      }
    }

    /** `delete_record(node)` answered by `reply`. */
    method DeleteRecord(node: RpcNode, reply: HttpReply) returns (r: Value)
      ensures r == DeleteOutcome(reply)
    {
      r := DeleteOutcome(reply);
    }
  }
}
