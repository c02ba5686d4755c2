/** moneriote/dns/transip.py: the TransIP provider. It talks SOAP, signs every
    call with a message built from the call's parameters, and replaces the
    domain's whole record set on every insertion or deletion. */
module TransIP {
  import opened Values
  import opened Strings
  import opened Rpc
  import opened Dns

  const ServiceName: string := "DomainService"
  const Endpoint: string := "api.transip.nl"
  const ClientVersion: string := "0.4.1"
  const ModeReadOnly: string := "readonly"
  const ModeReadWrite: string := "readwrite"
  /** The expiry of a record built from a node without one, in seconds. */
  const DefaultExpire: int := 60
  /** The longest nonce a cookie carries. */
  const NonceLength: nat := 32

  // ---------------------------------------------------------------------------
  // convert_value

  /** `convert_value(v)`: the API takes neither `None` nor booleans. */
  function ConvertValue(v: Value): (r: Value)
    ensures r != Nil && !r.Bool?
  {
    if v.Bool? then (if v.b then Int(1) else Str(""))
    else if !Truthy(v) then Str("")
    else v
  }

  /** `True` becomes 1, every false value (`False`, `None`, 0, empty) the
      empty string, and anything else passes unchanged; no `None` or boolean
      is left, so converting twice changes nothing more. */
  lemma ConvertValueContract(v: Value)
    ensures ConvertValue(v) != Nil && !ConvertValue(v).Bool?
    ensures ConvertValue(v) == Int(1) <==> v == Bool(true) || v == Int(1)
    ensures !Truthy(v) ==> ConvertValue(v) == Str("")
    ensures Truthy(v) && !v.Bool? ==> ConvertValue(v) == v
    ensures ConvertValue(ConvertValue(v)) == ConvertValue(v)
  {
  }

  // ---------------------------------------------------------------------------
  // TransIPDnsEntry

  /** A `TransIPDnsEntry` as its constructor builds it. */
  datatype Entry = Entry(name: Value, expire: Value, rtype: Value, content: Value)

  /** The attributes of an object, for `hasattr` and attribute reads. */
  type Attrs = map<string, Value>

  function EntryAttrs(e: Entry): Attrs
  {
    map["name" := e.name, "expire" := e.expire, "type" := e.rtype, "content" := e.content]
  }

  /** `self == other`: false when `self` lacks one of the compared
      attributes; otherwise name, type and content are compared in turn,
      and reading an attribute `other` lacks raises (`None`). */
  function EntryEquals(self: Attrs, other: Attrs): (r: Option<bool>)
    ensures r == Some(true) ==>
              && "name" in self && "name" in other && self["name"] == other["name"]
              && "type" in self && "type" in other && self["type"] == other["type"]
              && "content" in self && "content" in other && self["content"] == other["content"]
  {
    if "name" !in self || "type" !in self || "content" !in self then Some(false)
    else if "name" !in other then None
    else if self["name"] != other["name"] then Some(false)
    else if "type" !in other then None
    else if self["type"] != other["type"] then Some(false)
    else if "content" !in other then None
    else Some(self["content"] == other["content"])
  }

  /** Entries compare by name, type and content and never by expiry; the
      comparison is symmetric between entries; an object missing one of the
      three is unequal even to itself. */
  lemma EntryEqualsContract(a: Entry, b: Entry, self: Attrs)
    ensures EntryEquals(EntryAttrs(a), EntryAttrs(b)) == Some(a.name == b.name && a.rtype == b.rtype && a.content == b.content)
    ensures EntryEquals(EntryAttrs(a), EntryAttrs(b)) == EntryEquals(EntryAttrs(b), EntryAttrs(a))
    ensures EntryEquals(EntryAttrs(a), EntryAttrs(a.(expire := b.expire))) == Some(true)
    ensures "content" !in self ==> EntryEquals(self, self) == Some(false)
  {
  }

  // ---------------------------------------------------------------------------
  // The signature message

  /** An OrderedDict entry. */
  datatype Pair = Pair(key: string, value: Value)

  function Keys(d: seq<Pair>): (ks: seq<string>)
    ensures |ks| == |d| && forall i :: 0 <= i < |d| ==> ks[i] == d[i].key
  {
    seq(|d|, i requires 0 <= i < |d| => d[i].key)
  }

  /** Where the key `k` sits in `d`. */
  function KeyIndex(d: seq<Pair>, k: string): (i: nat)
    requires k in Keys(d)
    ensures i < |d| && d[i].key == k
  {
    if d[0].key == k then 0
    else
      assert k in Keys(d[1..]) by {
        var j :| 0 <= j < |d| && Keys(d)[j] == k;
        assert Keys(d[1..])[j - 1] == k;
      }
      KeyIndex(d[1..], k) + 1
  }

  /** `d[key] = value` on an OrderedDict: an existing key keeps its place
      and takes the new value, a new key goes at the end. */
  function Put(d: seq<Pair>, p: Pair): (r: seq<Pair>)
    ensures p.key in Keys(d) ==> Keys(r) == Keys(d)
    ensures p.key !in Keys(d) ==> r == d + [p]
  {
    if p.key in Keys(d) then
      var r := d[KeyIndex(d, p.key) := p];
      assert Keys(r) == Keys(d);
      r
    else d + [p]
  }

  /** The entries put one after another. */
  function PutAll(d: seq<Pair>, ps: seq<Pair>): seq<Pair>
  {
    if |ps| == 0 then d else Put(PutAll(d, ps[..|ps| - 1]), ps[|ps| - 1])
  }

  lemma {:induction false} PutAllAppend(d: seq<Pair>, a: seq<Pair>, b: seq<Pair>)
    ensures PutAll(d, a + b) == PutAll(PutAll(d, a), b)
    decreases |b|
  {
    if |b| == 0 {
      assert a + b == a;
    } else {
      assert (a + b)[..|a + b| - 1] == a + b[..|b| - 1];
      PutAllAppend(d, a, b[..|b| - 1]);
    }
  }

  /** Putting one entry after `ps`. */
  lemma PutAllSnoc(d: seq<Pair>, ps: seq<Pair>, p: Pair)
    ensures PutAll(d, ps + [p]) == Put(PutAll(d, ps), p)
  {
    assert (ps + [p])[..|ps|] == ps;
  }

  /** An OrderedDict never holds a key twice, and holds exactly the keys
      put into it. */
  lemma {:induction false} PutAllKeys(d: seq<Pair>, ps: seq<Pair>)
    requires Distinct(Keys(d))
    ensures Distinct(Keys(PutAll(d, ps)))
    ensures forall k :: k in Keys(PutAll(d, ps)) <==> k in Keys(d) || k in Keys(ps)
    decreases |ps|
  {
    if |ps| > 0 {
      var init := ps[..|ps| - 1];
      var last := ps[|ps| - 1];
      PutAllKeys(d, init);
      assert Keys(ps) == Keys(init) + [last.key];
      var prev := PutAll(d, init);
      if last.key !in Keys(prev) {
        assert Keys(prev + [last]) == Keys(prev) + [last.key];
      }
    }
  }

  /** Keys that are new and distinct are appended in order. */
  lemma {:induction false} PutAllFresh(d: seq<Pair>, ps: seq<Pair>)
    requires forall i, j :: 0 <= i < j < |ps| ==> ps[i].key != ps[j].key
    requires forall i :: 0 <= i < |ps| ==> ps[i].key !in Keys(d)
    ensures PutAll(d, ps) == d + ps
    decreases |ps|
  {
    if |ps| > 0 {
      var init := ps[..|ps| - 1];
      var last := ps[|ps| - 1];
      PutAllFresh(d, init);
      forall j | 0 <= j < |d + init|
        ensures Keys(d + init)[j] != last.key
      {
        if j < |d| {
          assert (d + init)[j] == d[j] && Keys(d)[j] == d[j].key;
        } else {
          assert (d + init)[j] == ps[j - |d|];
        }
      }
      assert d + init + [last] == d + ps;
    }
  }

  /** One field of a SOAP object, in attribute order. */
  datatype Field = Field(key: string, value: Value)

  /** One of the call's parameters: a list (whose SOAP objects contribute
      their fields, other elements nothing), a SOAP object, or any other
      value. */
  datatype Param = ListParam(elems: seq<Elem>) | ObjectParam(fields: seq<Field>) | Scalar(v: Value)
  datatype Elem = ObjectElem(fields: seq<Field>) | PlainElem(v: Value)

  /** `prefix[key] = convert_value(value)` for each field, in order. */
  function FieldPairs(prefix: string, fs: seq<Field>): seq<Pair>
  {
    if |fs| == 0 then []
    else
      var f := fs[|fs| - 1];
      FieldPairs(prefix, fs[..|fs| - 1]) + [Pair(prefix + "[" + f.key + "]", ConvertValue(f.value))]
  }

  /** The entries of the list parameter `index`, element by element. */
  function ElemsPairs(index: nat, es: seq<Elem>): seq<Pair>
  {
    if |es| == 0 then []
    else
      var j := |es| - 1;
      ElemsPairs(index, es[..j])
        + (if es[j].ObjectElem? then FieldPairs(ShowNat(index) + "[" + ShowNat(j) + "]", es[j].fields) else [])
  }

  /** The entries the parameter at `index` contributes. */
  function ParamPairs(index: nat, p: Param): seq<Pair>
  {
    match p
    case ListParam(es) => ElemsPairs(index, es)
    case ObjectParam(fs) => FieldPairs(ShowNat(index), fs)
    case Scalar(v) => [Pair(ShowNat(index), ConvertValue(v))]
  }

  /** The entries of all additional parameters, in the order they are put. */
  function Inserts(params: seq<Param>): seq<Pair>
  {
    if |params| == 0 then []
    else Inserts(params[..|params| - 1]) + ParamPairs(|params| - 1, params[|params| - 1])
  }

  lemma InsertsSnoc(params: seq<Param>, i: nat)
    requires i < |params|
    ensures Inserts(params[..i + 1]) == Inserts(params[..i]) + ParamPairs(i, params[i])
  {
    assert params[..i + 1][..i] == params[..i];
  }

  lemma ElemsPairsSnoc(index: nat, es: seq<Elem>, j: nat)
    requires j < |es|
    ensures ElemsPairs(index, es[..j + 1]) == ElemsPairs(index, es[..j])
      + (if es[j].ObjectElem? then FieldPairs(ShowNat(index) + "[" + ShowNat(j) + "]", es[j].fields) else [])
  {
    assert es[..j + 1][..j] == es[..j];
  }

  /** Five entries put one by one. */
  lemma PutAllFive(d: seq<Pair>, ps: seq<Pair>)
    requires |ps| == 5
    ensures PutAll(d, ps) == Put(Put(Put(Put(Put(d, ps[0]), ps[1]), ps[2]), ps[3]), ps[4])
  {
    assert PutAll(d, ps[..1]) == Put(d, ps[0]) by {
      assert ps[..1][..0] == [];
    }
    assert PutAll(d, ps[..2]) == Put(PutAll(d, ps[..1]), ps[1]) by {
      assert ps[..2][..1] == ps[..1];
    }
    assert PutAll(d, ps[..3]) == Put(PutAll(d, ps[..2]), ps[2]) by {
      assert ps[..3][..2] == ps[..2];
    }
    assert PutAll(d, ps[..4]) == Put(PutAll(d, ps[..3]), ps[3]) by {
      assert ps[..4][..3] == ps[..3];
    }
  }

  /** The entries that close every message, in this order. */
  function FixedPairs(methodName: string, timestamp: nat, nonce: string): seq<Pair>
  {
    [Pair("__method", Str(methodName)), Pair("__service", Str(ServiceName)),
     Pair("__hostname", Str(Endpoint)), Pair("__timestamp", Int(timestamp)),
     Pair("__nonce", Str(nonce))]
  }

  /** The OrderedDict `_build_signature_message` fills. */
  function SignaturePairs(methodName: string, timestamp: nat, nonce: string, params: seq<Param>): seq<Pair>
  {
    PutAll([], Inserts(params) + FixedPairs(methodName, timestamp, nonce))
  }

  /** The replacements applied after `urlencode`, in the source's order. */
  function PostReplace(s: string): string
  {
    ReplaceAll(ReplaceAll(ReplaceAll(ReplaceAll(s, "%5B", "["), "%5D", "]"), "+", "%20"), "%7E", "~")
  }

  /** The key starts with a digit: it comes from a parameter index. */
  predicate DigitLed(k: string)
  {
    |k| > 0 && IsDigit(k[0])
  }

  lemma {:induction false} ShowNatDigitLed(n: nat)
    ensures DigitLed(ShowNat(n))
  {
    if n >= 10 {
      ShowNatDigitLed(n / 10);
    }
  }

  lemma {:induction false} FieldPairsLed(prefix: string, fs: seq<Field>)
    requires DigitLed(prefix)
    ensures forall p :: p in FieldPairs(prefix, fs) ==> DigitLed(p.key)
    decreases |fs|
  {
    if |fs| > 0 {
      FieldPairsLed(prefix, fs[..|fs| - 1]);
    }
  }

  lemma {:induction false} ElemsPairsLed(index: nat, es: seq<Elem>)
    ensures forall p :: p in ElemsPairs(index, es) ==> DigitLed(p.key)
    decreases |es|
  {
    if |es| > 0 {
      var j := |es| - 1;
      ElemsPairsLed(index, es[..j]);
      ShowNatDigitLed(index);
      FieldPairsLed(ShowNat(index) + "[" + ShowNat(j) + "]", if es[j].ObjectElem? then es[j].fields else []);
    }
  }

  lemma {:induction false} InsertsLed(params: seq<Param>)
    ensures forall p :: p in Inserts(params) ==> DigitLed(p.key)
    decreases |params|
  {
    if |params| > 0 {
      var i := |params| - 1;
      InsertsLed(params[..i]);
      ShowNatDigitLed(i);
      match params[i]
      case ListParam(es) => ElemsPairsLed(i, es);
      case ObjectParam(fs) => FieldPairsLed(ShowNat(i), fs);
      case Scalar(v) =>
    }
  }

  /** The message lists every key once; the parameters' entries come first
      (their keys start with the parameter's index), then `__method`,
      `__service`, `__hostname`, `__timestamp` and `__nonce` in that order. */
  lemma SignatureOrder(methodName: string, timestamp: nat, nonce: string, params: seq<Param>)
    ensures var s := SignaturePairs(methodName, timestamp, nonce, params);
      && Distinct(Keys(s))
      && |s| >= 5
      && s[|s| - 5..] == FixedPairs(methodName, timestamp, nonce)
      && forall k :: 0 <= k < |s| - 5 ==> DigitLed(s[k].key)
  {
    var ins := Inserts(params);
    var fixed := FixedPairs(methodName, timestamp, nonce);
    var front := PutAll([], ins);
    PutAllAppend([], ins, fixed);
    FrontKeys(params);
    FixedAppended(front, methodName, timestamp, nonce);
    PutAllKeys([], ins + fixed);
    var s := front + fixed;
    assert s[|s| - 5..] == fixed;
    forall k | 0 <= k < |s| - 5
      ensures DigitLed(s[k].key)
    {
      assert s[k] == front[k];
      assert Keys(front)[k] in Keys(front);
    }
  }

  /** The parameters' entries have distinct keys, each led by a digit. */
  lemma FrontKeys(params: seq<Param>)
    ensures Distinct(Keys(PutAll([], Inserts(params))))
    ensures forall k :: k in Keys(PutAll([], Inserts(params))) ==> DigitLed(k)
  {
    var ins := Inserts(params);
    PutAllKeys([], ins);
    InsertsLed(params);
    forall k | k in Keys(PutAll([], ins))
      ensures DigitLed(k)
    {
      var j :| 0 <= j < |ins| && ins[j].key == k;
      assert ins[j] in ins;
    }
  }

  /** The fixed entries, whose keys start with `_`, go after digit-led keys. */
  lemma FixedAppended(front: seq<Pair>, methodName: string, timestamp: nat, nonce: string)
    requires forall k :: k in Keys(front) ==> DigitLed(k)
    ensures PutAll(front, FixedPairs(methodName, timestamp, nonce)) == front + FixedPairs(methodName, timestamp, nonce)
  {
    var fixed := FixedPairs(methodName, timestamp, nonce);
    forall k | k in Keys(fixed)
      ensures k !in Keys(front)
    {
      assert k[0] == '_';
    }
    PutAllFresh(front, fixed);
  }

  /** After the replacements no `+` is left: spaces end up as `%20`. */
  lemma NoPlusAfterReplace(s: string)
    ensures '+' !in PostReplace(s)
  {
    var s2 := ReplaceAll(ReplaceAll(s, "%5B", "["), "%5D", "]");
    ReplaceAllChar(s2, "+", "%20", '+');
    ReplaceAllChar(ReplaceAll(s2, "+", "%20"), "%7E", "~", '+');
  }

  // ---------------------------------------------------------------------------
  // Cookies

  /** `"%s=%s" % (k, val)` for each cookie, in the dictionary's order. */
  function CookieParts(cookies: seq<(string, string)>): (parts: seq<string>)
    ensures |parts| == |cookies|
    ensures forall i :: 0 <= i < |cookies| ==> parts[i] == cookies[i].0 + "=" + cookies[i].1
  {
    if |cookies| == 0 then []
    else CookieParts(cookies[..|cookies| - 1]) + [cookies[|cookies| - 1].0 + "=" + cookies[|cookies| - 1].1]
  }

  /** The header splits back at `;` into the `k=v` pairs, when no key or
      value contains `;`. */
  lemma CookieSplits(cookies: seq<(string, string)>)
    requires |cookies| >= 1
    requires forall i :: 0 <= i < |cookies| ==> ';' !in cookies[i].0 && ';' !in cookies[i].1
    ensures Split(Join(CookieParts(cookies), ";"), ';') == CookieParts(cookies)
  {
    var parts := CookieParts(cookies);
    forall i | 0 <= i < |parts|
      ensures ';' !in parts[i]
    {
      assert parts[i] == cookies[i].0 + "=" + cookies[i].1;
    }
    JoinSplit(parts, ';');
  }

  /** The time and randomness a cookie takes: `int(time.time())` and
      `str(uuid.uuid4())`. */
  datatype Clock = Clock(timestamp: nat, uuid: string)

  /** `build_cookie`, with the urlencoding and the signing given: `encode`
      is `urlencode` before the replacements and `signer` the RSA signature
      (`None` when the key file is missing, where `_sign` raises). */
  function CookiesSpec(p: DnsProvider, methodName: string, mode: string, params: seq<Param>, clock: Clock,
                       encode: seq<Pair> -> string, signer: string -> Option<string>): (r: Option<seq<(string, string)>>)
    ensures r.Some? ==> |r.value| == 6 && r.value[0].0 == "nonce" && |r.value[0].1| <= NonceLength && r.value[0].1 <= clock.uuid
  {
    var nonce := SlicePrefix(clock.uuid, NonceLength);
    var message := PostReplace(encode(SignaturePairs(methodName, clock.timestamp, nonce, params)));
    var signature := signer(message);
    if signature.None? then None
    else Some([("nonce", nonce), ("timestamp", ShowNat(clock.timestamp)), ("mode", mode),
               ("clientVersion", ClientVersion), ("login", Show(p.apiEmail)), ("signature", signature.value)])
  }

  // ---------------------------------------------------------------------------
  // Records

  /** An object of the `getInfo` answer's `dnsEntries`: a `DnsEntry`, or an
      object of another class. */
  datatype SoapEntry = DnsEntryObject(name: Value, expire: Value, rtype: Value, content: string) | OtherObject

  /** The node `get_records` builds from a `DnsEntry`, carrying its type,
      name and expiry along. */
  function EntryNode(e: SoapEntry): (n: RpcNode)
    requires e.DnsEntryObject?
    ensures !n.valid && n.address == e.content && n.port == DefaultRpcPort
  {
    NewNode(e.content, kwargs := map["type" := e.rtype, "name" := e.name, "expire" := e.expire])
  }

  /** The entries `get_records` keeps: every `DnsEntry` with `all_records`,
      else the A entries named like the subdomain. */
  function Listed(entries: seq<SoapEntry>, subdomain: Value, allRecords: bool): seq<RpcNode>
  {
    if |entries| == 0 then []
    else
      var e := entries[|entries| - 1];
      Listed(entries[..|entries| - 1], subdomain, allRecords)
        + (if e.DnsEntryObject? && (allRecords || (e.rtype == Str("A") && e.name == subdomain)) then [EntryNode(e)] else [])
  }
  /** Listing one more entry: a kept entry adds its node, any other adds
      nothing. */
  lemma ListedSnoc(entries: seq<SoapEntry>, i: nat, subdomain: Value, allRecords: bool)
    requires i < |entries|
    ensures var e := entries[i];
      e.DnsEntryObject? && (allRecords || (e.rtype == Str("A") && e.name == subdomain)) ==>
        Listed(entries[..i + 1], subdomain, allRecords) == Listed(entries[..i], subdomain, allRecords) + [EntryNode(e)]
    ensures var e := entries[i];
      !(e.DnsEntryObject? && (allRecords || (e.rtype == Str("A") && e.name == subdomain))) ==>
        Listed(entries[..i + 1], subdomain, allRecords) == Listed(entries[..i], subdomain, allRecords)
  {
    assert entries[..i + 1][..i] == entries[..i];
  }


  /** Without `all_records`, only A entries of the subdomain are listed;
      with it, every `DnsEntry` is. */
  lemma {:induction false} ListedExactly(entries: seq<SoapEntry>, subdomain: Value, allRecords: bool)
    ensures forall n :: n in Listed(entries, subdomain, allRecords) <==>
      exists e :: e in entries && e.DnsEntryObject? && (allRecords || (e.rtype == Str("A") && e.name == subdomain)) && n == EntryNode(e)
    decreases |entries|
  {
    if |entries| > 0 {
      var init := entries[..|entries| - 1];
      ListedExactly(init, subdomain, allRecords);
      assert entries == init + [entries[|entries| - 1]];
    }
  }

  /** `_rpcnode_to_entry(node)`: name, expiry and type from the node's extra
      arguments, defaulting to the subdomain, 60 and `A`; the address as
      content. */
  function NodeToEntry(p: DnsProvider, node: RpcNode): (e: Entry)
    ensures e.content == Str(node.address)
    ensures "name" !in node.kwargs ==> e.name == SettingValue(p.subdomainName)
    ensures "expire" !in node.kwargs ==> e.expire == Int(DefaultExpire)
    ensures "type" !in node.kwargs ==> e.rtype == Str("A")
  {
    Entry(Get(Dict(node.kwargs), "name", SettingValue(p.subdomainName)).value,
          Get(Dict(node.kwargs), "expire", Int(DefaultExpire)).value,
          Get(Dict(node.kwargs), "type", Str("A")).value,
          Str(node.address))
  }

  /** The entry a `DnsEntry` stands for. */
  function SoapToEntry(e: SoapEntry): Entry
    requires e.DnsEntryObject?
  {
    Entry(e.name, e.expire, e.rtype, Str(e.content))
  }

  /** A listed entry turns back into the same entry: nothing of a record is
      lost between `get_records` and `_rpcnode_to_entry`. */
  lemma EntryRoundTrip(p: DnsProvider, e: SoapEntry)
    requires e.DnsEntryObject?
    ensures NodeToEntry(p, EntryNode(e)) == SoapToEntry(e)
  {
  }

  /** A node of the engine (no extra arguments) becomes an A record of the
      subdomain expiring after 60 seconds. */
  lemma FreshNodeEntry(p: DnsProvider, address: string)
    ensures NodeToEntry(p, NewNode(address)) == Entry(SettingValue(p.subdomainName), Int(60), Str("A"), Str(address))
  {
  }

  function EntriesOf(p: DnsProvider, ns: seq<RpcNode>): (es: seq<Entry>)
    ensures |es| == |ns| && forall i :: 0 <= i < |ns| ==> es[i] == NodeToEntry(p, ns[i])
  {
    if |ns| == 0 then [] else EntriesOf(p, ns[..|ns| - 1]) + [NodeToEntry(p, ns[|ns| - 1])]
  }

  /** Every `DnsEntry` of the domain, in order. */
  function AllEntries(entries: seq<SoapEntry>): seq<Entry>
  {
    if |entries| == 0 then []
    else
      var e := entries[|entries| - 1];
      AllEntries(entries[..|entries| - 1]) + (if e.DnsEntryObject? then [SoapToEntry(e)] else [])
  }

  /** The record set `add_record` submits as written: the entries of
      `get_records(all_records=True)`, which keeps one entry per address,
      plus the new node's entry. */
  function AddRecordAsWritten(p: DnsProvider, entries: seq<SoapEntry>, node: RpcNode): (r: seq<Entry>)
    ensures |r| > 0 && r[|r| - 1] == NodeToEntry(p, node)
  {
    EntriesOf(p, Dedup(Listed(entries, SettingValue(p.subdomainName), true))) + [NodeToEntry(p, node)]
  }

  /** The record set `delete_record` submits as written. */
  function DeleteRecordAsWritten(p: DnsProvider, entries: seq<SoapEntry>, node: RpcNode): seq<Entry>
  {
    var kept := Dedup(Listed(entries, SettingValue(p.subdomainName), true));
    EntriesOf(p, FilterAddress(kept, node.address))
  }

  function FilterAddress(ns: seq<RpcNode>, address: string): seq<RpcNode>
  {
    if |ns| == 0 then []
    else FilterAddress(ns[..|ns| - 1], address) + (if ns[|ns| - 1].address != address then [ns[|ns| - 1]] else [])
  }

  /** The record set an insertion submits: every existing entry, then the
      new node's. */
  function AddRecordSet(p: DnsProvider, entries: seq<SoapEntry>, node: RpcNode): seq<Entry>
  {
    AllEntries(entries) + [NodeToEntry(p, node)]
  }

  /** The record set a deletion submits: every existing entry whose content
      is not the node's address. */
  function DeleteRecordSet(entries: seq<SoapEntry>, address: string): seq<Entry>
  {
    if |entries| == 0 then []
    else
      var e := entries[|entries| - 1];
      DeleteRecordSet(entries[..|entries| - 1], address)
        + (if e.DnsEntryObject? && e.content != address then [SoapToEntry(e)] else [])
  }

  lemma {:induction false} AllEntriesExactly(entries: seq<SoapEntry>)
    ensures forall x :: x in AllEntries(entries) <==> exists e :: e in entries && e.DnsEntryObject? && x == SoapToEntry(e)
    decreases |entries|
  {
    if |entries| > 0 {
      AllEntriesExactly(entries[..|entries| - 1]);
      assert entries == entries[..|entries| - 1] + [entries[|entries| - 1]];
    }
  }

  lemma {:induction false} DeleteRecordSetExactly(entries: seq<SoapEntry>, address: string)
    ensures forall x :: x in DeleteRecordSet(entries, address) <==>
      exists e :: e in entries && e.DnsEntryObject? && e.content != address && x == SoapToEntry(e)
    decreases |entries|
  {
    if |entries| > 0 {
      DeleteRecordSetExactly(entries[..|entries| - 1], address);
      assert entries == entries[..|entries| - 1] + [entries[|entries| - 1]];
    }
  }

  /** An insertion keeps every record of the domain, whatever its name, and
      adds the node's; a deletion keeps exactly the records that do not
      point at the node. */
  lemma RecordSetsPreserve(p: DnsProvider, entries: seq<SoapEntry>, node: RpcNode)
    ensures forall x :: x in AddRecordSet(p, entries, node) <==>
      x == NodeToEntry(p, node) || exists e :: e in entries && e.DnsEntryObject? && x == SoapToEntry(e)
    ensures forall x :: x in DeleteRecordSet(entries, node.address) <==>
      exists e :: e in entries && e.DnsEntryObject? && e.content != node.address && x == SoapToEntry(e)
  {
    AllEntriesExactly(entries);
    DeleteRecordSetExactly(entries, node.address);
  }

  /** The listing of an apex and a `www` record pointing at one address
      keeps only the apex record once deduplicated. */
  lemma SharedAddressListing(p: DnsProvider, address: string)
    ensures var apex := DnsEntryObject(Str("@"), Int(60), Str("A"), address);
      var www := DnsEntryObject(Str("www"), Int(60), Str("A"), address);
      Dedup(Listed([apex, www], SettingValue(p.subdomainName), true)) == [EntryNode(apex)]
  {
    var apex := DnsEntryObject(Str("@"), Int(60), Str("A"), address);
    var www := DnsEntryObject(Str("www"), Int(60), Str("A"), address);
    var sub := SettingValue(p.subdomainName);
    var la := EntryNode(apex);
    var lw := EntryNode(www);
    assert Listed([apex], sub, true) == [la] by {
      assert [apex][..0] == [];
    }
    assert Listed([apex, www], sub, true) == [la, lw] by {
      assert [apex, www][..1] == [apex];
    }
    AppendedSnoc([], la);
    assert [] + [la] == [la];
    assert Dedup([la]) == [la];
    AppendedSnoc([la], lw);
    assert [la] + [lw] == [la, lw];
    assert AddressesOf([la]) == [address];
  }

  /** As written, an insertion drops a record that shares its address with
      an earlier one: with `@` and `www` both pointing at one address, the
      submitted set has no `www` entry. */
  lemma AddRecordDropsSharedAddress(p: DnsProvider, address: string, node: RpcNode)
    requires node.address != address
    ensures var www := DnsEntryObject(Str("www"), Int(60), Str("A"), address);
      var entries := [DnsEntryObject(Str("@"), Int(60), Str("A"), address), www];
      SoapToEntry(www) !in AddRecordAsWritten(p, entries, node)
      && SoapToEntry(www) in AddRecordSet(p, entries, node)
  {
    var apex := DnsEntryObject(Str("@"), Int(60), Str("A"), address);
    var www := DnsEntryObject(Str("www"), Int(60), Str("A"), address);
    var entries := [apex, www];
    SharedAddressListing(p, address);
    EntryRoundTrip(p, apex);
    assert AddRecordAsWritten(p, entries, node) == [SoapToEntry(apex), NodeToEntry(p, node)];
    AllEntriesExactly(entries);
    assert www in entries;
  }

  /** The same happens on deletion of an unrelated node. */
  lemma DeleteRecordDropsSharedAddress(p: DnsProvider, address: string, other: string)
    requires other != address
    ensures var www := DnsEntryObject(Str("www"), Int(60), Str("A"), address);
      var entries := [DnsEntryObject(Str("@"), Int(60), Str("A"), address), www];
      SoapToEntry(www) !in DeleteRecordAsWritten(p, entries, NewNode(other))
      && SoapToEntry(www) in DeleteRecordSet(entries, other)
  {
    var apex := DnsEntryObject(Str("@"), Int(60), Str("A"), address);
    var www := DnsEntryObject(Str("www"), Int(60), Str("A"), address);
    DeleteAsWrittenKeepsApex(p, address, other);
    DeleteCorrectedKeepsBoth(address, other);
    assert SoapToEntry(www).name != SoapToEntry(apex).name;
  }

  /** Corrected, deleting an unrelated node keeps both the `@` and the `www`
      record. */
  lemma DeleteCorrectedKeepsBoth(address: string, other: string)
    requires other != address
    ensures var apex := DnsEntryObject(Str("@"), Int(60), Str("A"), address);
      var www := DnsEntryObject(Str("www"), Int(60), Str("A"), address);
      DeleteRecordSet([apex, www], other) == [SoapToEntry(apex), SoapToEntry(www)]
  {
    var apex := DnsEntryObject(Str("@"), Int(60), Str("A"), address);
    var www := DnsEntryObject(Str("www"), Int(60), Str("A"), address);
    assert DeleteRecordSet([apex], other) == [SoapToEntry(apex)] by {
      assert [apex][..0] == [];
    }
    assert DeleteRecordSet([apex, www], other) == DeleteRecordSet([apex], other) + [SoapToEntry(www)] by {
      assert [apex, www][..1] == [apex];
    }
  }

  /** As written, deleting an unrelated node from `@` and `www` records that
      share one address submits the `@` record alone. */
  lemma DeleteAsWrittenKeepsApex(p: DnsProvider, address: string, other: string)
    requires other != address
    ensures var apex := DnsEntryObject(Str("@"), Int(60), Str("A"), address);
      var www := DnsEntryObject(Str("www"), Int(60), Str("A"), address);
      DeleteRecordAsWritten(p, [apex, www], NewNode(other)) == [SoapToEntry(apex)]
  {
    var apex := DnsEntryObject(Str("@"), Int(60), Str("A"), address);
    SharedAddressListing(p, address);
    EntryRoundTrip(p, apex);
    assert FilterAddress([EntryNode(apex)], other) == [EntryNode(apex)] by {
      assert [EntryNode(apex)][..0] == [];
    }
  }

  // ---------------------------------------------------------------------------
  // The provider

  /** The parameters of `getInfo`: the domain name. */
  function InfoParams(p: DnsProvider): seq<Param>
  {
    [Scalar(SettingValue(p.domainName))]
  }

  /** The fields a `TransIPDnsEntry` yields when iterated, in the order its
      constructor sets them. */
  function EntryFields(e: Entry): seq<Field>
  {
    [Field("name", e.name), Field("expire", e.expire), Field("type", e.rtype), Field("content", e.content)]
  }

  /** The parameters of `setDnsEntries`: the domain name and the records. */
  function SetParams(p: DnsProvider, records: seq<Entry>): seq<Param>
  {
    [Scalar(SettingValue(p.domainName)),
     ListParam(seq(|records|, i requires 0 <= i < |records| => ObjectElem(EntryFields(records[i]))))]
  }

  /** The Cookie header the SOAP client sends. */
  function CookieHeader(cookies: seq<(string, string)>): string
  {
    Join(CookieParts(cookies), ";")
  }

  class TransIPProvider {
    const provider: DnsProvider
    /** The Cookie header of the SOAP client, set before each call. */
    var cookie: string

    constructor(provider: DnsProvider)
      ensures this.provider == provider && cookie == ""
    {
      this.provider := provider;
      cookie := "";
    }

    /** `_build_signature_message`: fills the ordered dictionary parameter by
        parameter, then adds the five fixed entries, and urlencodes it. */
    static method BuildSignatureMessage(methodName: string, timestamp: nat, nonce: string, params: seq<Param>,
                                        encode: seq<Pair> -> string) returns (sign: seq<Pair>, message: string)
      ensures sign == SignaturePairs(methodName, timestamp, nonce, params)
      ensures message == PostReplace(encode(sign))
    {
      sign := [];
      var index := 0;
      while index < |params|
        invariant index <= |params|
        invariant sign == PutAll([], Inserts(params[..index]))
      {
        sign := PutParam(sign, index, params[index]);
        PutAllAppend([], Inserts(params[..index]), ParamPairs(index, params[index]));
        InsertsSnoc(params, index);
        index := index + 1;
      }
      assert params[..index] == params;
      var fixed := FixedPairs(methodName, timestamp, nonce);
      ghost var base := sign;
      sign := Put(sign, Pair("__method", Str(methodName)));
      sign := Put(sign, Pair("__service", Str(ServiceName)));
      sign := Put(sign, Pair("__hostname", Str(Endpoint)));
      sign := Put(sign, Pair("__timestamp", Int(timestamp)));
      sign := Put(sign, Pair("__nonce", Str(nonce)));
      PutAllFive(base, fixed);
      PutAllAppend([], Inserts(params), fixed);
      message := PostReplace(encode(sign));
    }

    /** The entries of one parameter, put in order. */
    static method PutParam(d: seq<Pair>, index: nat, p: Param) returns (r: seq<Pair>)
      ensures r == PutAll(d, ParamPairs(index, p))
    {
      match p
      case ListParam(es) =>
        r := PutElems(d, index, es);
      case ObjectParam(fs) =>
        r := PutFields(d, ShowNat(index), fs);
      case Scalar(v) =>
        r := Put(d, Pair(ShowNat(index), ConvertValue(v)));
        assert [Pair(ShowNat(index), ConvertValue(v))][..0] == [];
    }

    /** The fields of each SOAP object of a list parameter, put in order. */
    static method PutElems(d: seq<Pair>, index: nat, es: seq<Elem>) returns (r: seq<Pair>)
      ensures r == PutAll(d, ElemsPairs(index, es))
    {
      r := d;
      var j := 0;
      while j < |es|
        invariant j <= |es|
        invariant r == PutAll(d, ElemsPairs(index, es[..j]))
      {
        ElemsPairsSnoc(index, es, j);
        if es[j].ObjectElem? {
          var prefix := ShowNat(index) + "[" + ShowNat(j) + "]";
          r := PutFields(r, prefix, es[j].fields);
          PutAllAppend(d, ElemsPairs(index, es[..j]), FieldPairs(prefix, es[j].fields));
        } else {
          assert ElemsPairs(index, es[..j]) + [] == ElemsPairs(index, es[..j]);
        }
        j := j + 1;
      }
      assert es[..j] == es;
    }

    /** `sign[prefix[key]] = convert_value(value)` for each field. */
    static method PutFields(d: seq<Pair>, prefix: string, fs: seq<Field>) returns (r: seq<Pair>)
      ensures r == PutAll(d, FieldPairs(prefix, fs))
    {
      r := d;
      var k := 0;
      while k < |fs|
        invariant k <= |fs|
        invariant r == PutAll(d, FieldPairs(prefix, fs[..k]))
      {
        assert fs[..k + 1][..k] == fs[..k];
        var pair := Pair(prefix + "[" + fs[k].key + "]", ConvertValue(fs[k].value));
        r := Put(r, pair);
        PutAllAppend(d, FieldPairs(prefix, fs[..k]), [pair]);
        assert [pair][..0] == [];
        k := k + 1;
      }
      assert fs[..k] == fs;
    }

    /** `update_cookie`: the header becomes the `k=v` pairs joined by `;`. */
    method UpdateCookie(cookies: seq<(string, string)>)
      modifies this
      ensures cookie == CookieHeader(cookies)
    {
      var temp: seq<string> := [];
      var i := 0;
      while i < |cookies|
        invariant i <= |cookies|
        invariant temp == CookieParts(cookies[..i])
      {
        assert cookies[..i + 1][..i] == cookies[..i];
        temp := temp + [cookies[i].0 + "=" + cookies[i].1];
        i := i + 1;
      }
      assert cookies[..i] == cookies;
      cookie := Join(temp, ";");
    }

    /** `build_cookie`: the nonce is the first 32 characters of a fresh
        UUID, the signature covers the call's parameters. */
    method BuildCookie(methodName: string, mode: string, params: seq<Param>, clock: Clock,
                       encode: seq<Pair> -> string, signer: string -> Option<string>)
      returns (cookies: Option<seq<(string, string)>>)
      ensures cookies == CookiesSpec(provider, methodName, mode, params, clock, encode, signer)
    {
      var nonce := SlicePrefix(clock.uuid, NonceLength);
      var sign, message := BuildSignatureMessage(methodName, clock.timestamp, nonce, params, encode);
      var signature := signer(message);
      if signature.None? {
        return None;
      }
      cookies := Some([("nonce", nonce), ("timestamp", ShowNat(clock.timestamp)), ("mode", mode),
                       ("clientVersion", ClientVersion), ("login", Show(provider.apiEmail)),
                       ("signature", signature.value)]);
    }

    /** `_simple_request`: sets the cookie for the call; `false` when
        signing raised, and then the cookie is as before. */
    method SimpleRequest(methodName: string, mode: string, params: seq<Param>, clock: Clock,
                         encode: seq<Pair> -> string, signer: string -> Option<string>) returns (ok: bool)
      modifies this
      ensures var c := CookiesSpec(provider, methodName, mode, params, clock, encode, signer);
        ok == c.Some? && cookie == (if ok then CookieHeader(c.value) else old(cookie))
    {
      var cookies := BuildCookie(methodName, mode, params, clock, encode, signer);
      if cookies.None? {
        return false;
      }
      UpdateCookie(cookies.value);
      ok := true;
    }

    /** `get_records`: `getInfo` on the domain, then the listed entries as
        nodes, one per address; `null` when signing raised. `entries` is
        the answer's `dnsEntries`. */
    method GetRecords(entries: seq<SoapEntry>, allRecords: bool, clock: Clock,
                      encode: seq<Pair> -> string, signer: string -> Option<string>)
      returns (nodes: RpcNodeList?)
      modifies this
      ensures var c := CookiesSpec(provider, "getInfo", ModeReadOnly, InfoParams(provider), clock, encode, signer);
        (nodes != null <==> c.Some?) && cookie == (if c.Some? then CookieHeader(c.value) else old(cookie))
      ensures nodes != null ==>
        (fresh(nodes) && nodes.Valid() && nodes.InOrder()
         && nodes.nodes == Dedup(Listed(entries, SettingValue(provider.subdomainName), allRecords)))
    {
      var ok := SimpleRequest("getInfo", ModeReadOnly, InfoParams(provider), clock, encode, signer);
      if !ok {
        return null;
      }
      nodes := ListNodes(entries, SettingValue(provider.subdomainName), allRecords);
    }

    /** The loop of `get_records` over the `dnsEntries` of the answer. */
    static method ListNodes(entries: seq<SoapEntry>, subdomain: Value, allRecords: bool) returns (nodes: RpcNodeList)
      ensures fresh(nodes) && nodes.Valid() && nodes.InOrder()
      ensures nodes.nodes == Dedup(Listed(entries, subdomain, allRecords))
    {
      nodes := new RpcNodeList();
      var i := 0;
      while i < |entries|
        invariant i <= |entries|
        invariant fresh(nodes) && nodes.Valid() && nodes.InOrder()
        invariant nodes.nodes == Dedup(Listed(entries[..i], subdomain, allRecords))
      {
        ListEntry(nodes, entries, i, subdomain, allRecords);
        i := i + 1;
      }
      assert entries[..i] == entries;
    }

    /** One turn of the listing loop: a kept entry's node is appended unless
        its address is already listed. */
    static method ListEntry(nodes: RpcNodeList, entries: seq<SoapEntry>, i: nat, subdomain: Value, allRecords: bool)
      requires i < |entries|
      requires nodes.Valid() && nodes.InOrder()
      requires nodes.nodes == Dedup(Listed(entries[..i], subdomain, allRecords))
      modifies nodes
      ensures nodes.Valid() && nodes.InOrder()
      ensures nodes.nodes == Dedup(Listed(entries[..i + 1], subdomain, allRecords))
    {
      var e := entries[i];
      ListedSnoc(entries, i, subdomain, allRecords);
      if e.DnsEntryObject? && (allRecords || (e.rtype == Str("A") && e.name == subdomain)) {
        AppendedSnoc(Listed(entries[..i], subdomain, allRecords), EntryNode(e));
        nodes.Append(EntryNode(e));
      }
    }

    /** `add_record`: reads the domain's entries and submits them with the
        node's entry added (`setDnsEntries`); the submitted set, or `None`
        when signing raised. `entries` is the `getInfo` answer. */
    method AddRecord(node: RpcNode, entries: seq<SoapEntry>, infoClock: Clock, setClock: Clock,
                     encode: seq<Pair> -> string, signer: string -> Option<string>)
      returns (submitted: Option<seq<Entry>>)
      modifies this
      ensures submitted.Some? ==> submitted.value == AddRecordSet(provider, entries, node)
      ensures submitted.Some? <==>
        CookiesSpec(provider, "getInfo", ModeReadOnly, InfoParams(provider), infoClock, encode, signer).Some?
        && CookiesSpec(provider, "setDnsEntries", ModeReadWrite, SetParams(provider, AddRecordSet(provider, entries, node)), setClock, encode, signer).Some?
      ensures submitted.Some? ==> cookie == CookieHeader(
        CookiesSpec(provider, "setDnsEntries", ModeReadWrite, SetParams(provider, submitted.value), setClock, encode, signer).value)
    {
      var ok := SimpleRequest("getInfo", ModeReadOnly, InfoParams(provider), infoClock, encode, signer);
      if !ok {
        return None;
      }
      var records := ListAll(entries);
      records := records + [NodeToEntry(provider, node)];
      ok := SimpleRequest("setDnsEntries", ModeReadWrite, SetParams(provider, records), setClock, encode, signer);
      if !ok {
        return None;
      }
      submitted := Some(records);
    }

    /** `delete_record`: reads the domain's entries and submits those not
        pointing at the node's address. */
    method DeleteRecord(node: RpcNode, entries: seq<SoapEntry>, infoClock: Clock, setClock: Clock,
                        encode: seq<Pair> -> string, signer: string -> Option<string>)
      returns (submitted: Option<seq<Entry>>)
      modifies this
      ensures submitted.Some? ==> submitted.value == DeleteRecordSet(entries, node.address)
      ensures submitted.Some? <==>
        CookiesSpec(provider, "getInfo", ModeReadOnly, InfoParams(provider), infoClock, encode, signer).Some?
        && CookiesSpec(provider, "setDnsEntries", ModeReadWrite, SetParams(provider, DeleteRecordSet(entries, node.address)), setClock, encode, signer).Some?
      ensures submitted.Some? ==> cookie == CookieHeader(
        CookiesSpec(provider, "setDnsEntries", ModeReadWrite, SetParams(provider, submitted.value), setClock, encode, signer).value)
    {
      var ok := SimpleRequest("getInfo", ModeReadOnly, InfoParams(provider), infoClock, encode, signer);
      if !ok {
        return None;
      }
      var records: seq<Entry> := [];
      var i := 0;
      while i < |entries|
        invariant i <= |entries|
        invariant records == DeleteRecordSet(entries[..i], node.address)
      {
        assert entries[..i + 1][..i] == entries[..i];
        if entries[i].DnsEntryObject? && entries[i].content != node.address {
          records := records + [SoapToEntry(entries[i])];
        }
        i := i + 1;
      }
      assert entries[..i] == entries;
      ok := SimpleRequest("setDnsEntries", ModeReadWrite, SetParams(provider, records), setClock, encode, signer);
      if !ok {
        return None;
      }
      submitted := Some(records);
    }

    /** Every `DnsEntry` of the listing as an entry. */
    static method ListAll(entries: seq<SoapEntry>) returns (records: seq<Entry>)
      ensures records == AllEntries(entries)
    {
      records := [];
      var i := 0;
      while i < |entries|
        invariant i <= |entries|
        invariant records == AllEntries(entries[..i])
      {
        assert entries[..i + 1][..i] == entries[..i];
        if entries[i].DnsEntryObject? {
          records := records + [SoapToEntry(entries[i])];
        }
        i := i + 1;
      }
      assert entries[..i] == entries;
    }
  }
}
