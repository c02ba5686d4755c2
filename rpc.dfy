/** moneriote/rpc.py: an RPC node, its health check against a reference chain
    height, and the deduplicated node list with its cache snapshot. */
module Rpc {
  import opened Values

  /** How far a node may lag behind the reference height and still be valid. */
  const AcceptableBlockOffset: int := 3
  /** The default restricted-RPC port of a public node. */
  const DefaultRpcPort: int := 18089

  /** One candidate node. `uid` is the DNS provider's record id (or `None`),
      `dt` the first time the node was checked (empty until then), `kwargs`
      the extra keyword arguments the node was built with. */
  datatype RpcNode = RpcNode(address: string, port: int, uid: Value, valid: bool,
                             dt: string, kwargs: map<string, Value>)

  /** `RpcNode.__init__`: every node starts out not valid. */
  function NewNode(address: string, uid: Value := Nil, port: int := DefaultRpcPort,
                   dt: string := "", kwargs: map<string, Value> := map[]): (n: RpcNode)
    ensures !n.valid
    ensures n.address == address && n.uid == uid && n.port == port
    ensures n.dt == dt && n.kwargs == kwargs
  {
    RpcNode(address, port, uid, false, dt, kwargs)
  }

  // ---------------------------------------------------------------------------
  // The health check

  /** The reply carries an integer height at most `AcceptableBlockOffset`
      blocks behind `currentHeight`; a node ahead of it always qualifies. */
  predicate HeightAccepted(currentHeight: int, blob: Value)
  {
    blob.Dict? && "height" in blob.entries && IsInt(blob.entries["height"])
    && currentHeight - AsInt(blob.entries["height"]) <= AcceptableBlockOffset
  }

  /** `RpcNode.is_valid(current_blockheight, obj)` given `blob`, the value
      `make_json_request` returned for the node's `/getheight` (Python `None`
      when the request failed), and `now`, the clock reading.
      `None` when Python raises: a truthy reply that is not a dictionary has no
      `get` method, and the AttributeError is outside the `try`. */
  function IsValid(currentHeight: int, node: RpcNode, blob: Value, now: string): (r: Option<RpcNode>)
    ensures r.None? <==> Truthy(blob) && !blob.Dict?
    ensures r.Some? ==> r.value == node.(valid := r.value.valid, dt := r.value.dt)
    ensures r.Some? ==> r.value.dt == (if |node.dt| == 0 then now else node.dt)
    ensures r.Some? ==> (r.value.valid <==> node.valid || HeightAccepted(currentHeight, blob))
  {
    var stamped := if |node.dt| == 0 then node.(dt := now) else node;
    if !Truthy(blob) then Some(stamped)
    else if !blob.Dict? then None
    else
      var height := if "height" in blob.entries then blob.entries["height"] else Str("");
      if !IsInt(height) then Some(stamped)
      else if currentHeight - AsInt(height) <= AcceptableBlockOffset then Some(stamped.(valid := true))
      else Some(stamped)
  }

  /** The check only ever raises the flag: a failed request, a missing or
      non-integer height, or a lagging node leave `valid` as it was. */
  lemma IsValidNeverClears(currentHeight: int, node: RpcNode, blob: Value, now: string)
    requires IsValid(currentHeight, node, blob, now).Some?
    ensures node.valid ==> IsValid(currentHeight, node, blob, now).value.valid
    ensures !HeightAccepted(currentHeight, blob) ==>
      IsValid(currentHeight, node, blob, now).value.valid == node.valid
  {
  }

  /** A node reporting a height at or above the reference is accepted, one
      three blocks behind is accepted, and one four blocks behind is not. */
  lemma {:induction false} HeightWindow(currentHeight: int, reported: int, node: RpcNode, now: string)
    requires !node.valid
    ensures reported >= currentHeight - 3 ==>
      IsValid(currentHeight, node, Dict(map["height" := Int(reported)]), now).value.valid
    ensures reported < currentHeight - 3 ==>
      !IsValid(currentHeight, node, Dict(map["height" := Int(reported)]), now).value.valid
  {
    var blob := Dict(map["height" := Int(reported)]);
    assert Truthy(blob) by { assert "height" in blob.entries; }
    assert IsInt(blob.entries["height"]) && AsInt(blob.entries["height"]) == reported;
  }

  // ---------------------------------------------------------------------------
  // Address bookkeeping

  function AddressesOf(ns: seq<RpcNode>): (r: seq<string>)
    ensures |r| == |ns| && forall i :: 0 <= i < |ns| ==> r[i] == ns[i].address
  {
    seq(|ns|, i requires 0 <= i < |ns| => ns[i].address)
  }

  /** The nodes `append` adds, in order, when each node of `src` is appended
      to a list already holding the addresses `seen`: a node is skipped when
      its address is already present. */
  function Appended(seen: seq<string>, src: seq<RpcNode>): (r: seq<RpcNode>)
    decreases |src|
  {
    if |src| == 0 then []
    else
      var p := Appended(seen, src[..|src| - 1]);
      var n := src[|src| - 1];
      if n.address in seen || n.address in AddressesOf(p) then p else p + [n]
  }

  /** `RpcNodeList.from_list(ns).nodes`: the first node seen for each address. */
  function Dedup(ns: seq<RpcNode>): seq<RpcNode>
  {
    Appended([], ns)
  }

  /** Appending never introduces an address twice, and afterwards exactly the
      addresses of `seen` and of `src` are present. */
  lemma {:induction false} AppendedAddresses(seen: seq<string>, src: seq<RpcNode>)
    requires Distinct(seen)
    ensures Distinct(seen + AddressesOf(Appended(seen, src)))
    ensures forall a :: a in seen + AddressesOf(Appended(seen, src)) <==> a in seen || a in AddressesOf(src)
    ensures forall n :: n in Appended(seen, src) ==> n in src
    decreases |src|
  {
    if |src| > 0 {
      var init := src[..|src| - 1];
      var p := Appended(seen, init);
      var n := src[|src| - 1];
      AppendedAddresses(seen, init);
      assert forall a :: a in AddressesOf(init) ==> a in AddressesOf(src) by {
        forall a | a in AddressesOf(init) ensures a in AddressesOf(src) {
          var i :| 0 <= i < |init| && AddressesOf(init)[i] == a;
          assert AddressesOf(src)[i] == a;
        }
      }
      assert forall a :: a in AddressesOf(src) ==> a in AddressesOf(init) || a == n.address by {
        forall a | a in AddressesOf(src) ensures a in AddressesOf(init) || a == n.address {
          var i :| 0 <= i < |src| && AddressesOf(src)[i] == a;
          if i < |src| - 1 { assert AddressesOf(init)[i] == a; }
        }
      }
      if !(n.address in seen || n.address in AddressesOf(p)) {
        assert AddressesOf(p + [n]) == AddressesOf(p) + [n.address];
        assert seen + AddressesOf(p + [n]) == (seen + AddressesOf(p)) + [n.address];
      }
    }
  }

  /** The index of the first node of `ns` with address `a`. */
  function FirstIndex(ns: seq<RpcNode>, a: string): (i: nat)
    requires a in AddressesOf(ns)
    ensures i < |ns| && ns[i].address == a
    ensures forall j :: 0 <= j < i ==> ns[j].address != a
  {
    if ns[0].address == a then 0
    else
      assert AddressesOf(ns[1..]) == AddressesOf(ns)[1..];
      1 + FirstIndex(ns[1..], a)
  }

  /** After deduplication exactly the input's addresses remain, each once. */
  lemma DedupAddresses(ns: seq<RpcNode>)
    ensures forall a :: a in AddressesOf(Dedup(ns)) <==> a in AddressesOf(ns)
    ensures Distinct(AddressesOf(Dedup(ns)))
    ensures forall n :: n in Dedup(ns) ==> n in ns
  {
    AppendedAddresses([], ns);
    assert [] + AddressesOf(Dedup(ns)) == AddressesOf(Dedup(ns));
  }

  /** The first index of an address that occurs in a prefix lies in that prefix. */
  lemma FirstIndexPrefix(ns: seq<RpcNode>, m: nat, a: string)
    requires m <= |ns| && a in AddressesOf(ns[..m])
    ensures a in AddressesOf(ns) && FirstIndex(ns, a) == FirstIndex(ns[..m], a)
  {
    var j := FirstIndex(ns[..m], a);
    assert AddressesOf(ns)[j] == a;
    var i := FirstIndex(ns, a);
    assert i <= j;
  }

    /** Every node of `d` is the first node of `ns` with its address. */
  ghost predicate KeepsFirst(ns: seq<RpcNode>, d: seq<RpcNode>)
  {
    forall k :: 0 <= k < |d| ==> d[k].address in AddressesOf(ns) && d[k] == ns[FirstIndex(ns, d[k].address)]
  }

  /** The nodes of `d` come in the order their addresses first occur in `ns`. */
  ghost predicate InFirstOrder(ns: seq<RpcNode>, d: seq<RpcNode>)
  {
    forall k1, k2 :: 0 <= k1 < k2 < |d| ==>
      d[k1].address in AddressesOf(ns) && d[k2].address in AddressesOf(ns) &&
      FirstIndex(ns, d[k1].address) < FirstIndex(ns, d[k2].address)
  }

  /** `from_list` keeps, for each address, the first node that carries it,
      in the order the addresses first occur. */
  lemma {:induction false} DedupKeepsFirst(ns: seq<RpcNode>)
    ensures KeepsFirst(ns, Dedup(ns)) && InFirstOrder(ns, Dedup(ns))
    decreases |ns|
  {
    if |ns| > 0 {
      var init := ns[..|ns| - 1];
      var x := ns[|ns| - 1];
      var d := Dedup(init);
      DedupKeepsFirst(init);
      DedupAddresses(init);
      FirstsOfPrefix(ns, d);
      if x.address in AddressesOf(d) {
        assert Dedup(ns) == d;
      } else {
        assert Dedup(ns) == d + [x];
        NewAddressFirstAt(ns, d);
        assert ns[FirstIndex(ns, x.address)] == x;
      }
    }
  }

  /** What holds of `d` against a prefix of `ns` holds against `ns`. */
  lemma FirstsOfPrefix(ns: seq<RpcNode>, d: seq<RpcNode>)
    requires |ns| > 0
    requires forall k :: 0 <= k < |d| ==> d[k].address in AddressesOf(ns[..|ns| - 1])
    requires KeepsFirst(ns[..|ns| - 1], d) && InFirstOrder(ns[..|ns| - 1], d)
    ensures KeepsFirst(ns, d) && InFirstOrder(ns, d)
  {
    var init := ns[..|ns| - 1];
    forall k | 0 <= k < |d|
      ensures d[k].address in AddressesOf(ns) && FirstIndex(ns, d[k].address) == FirstIndex(init, d[k].address)
    {
      FirstIndexPrefix(ns, |ns| - 1, d[k].address);
    }
  }

  /** A last node whose address the deduplicated prefix lacks occurs first at
      the end, after the first occurrence of every earlier address. */
  lemma NewAddressFirstAt(ns: seq<RpcNode>, d: seq<RpcNode>)
    requires |ns| > 0 && d == Dedup(ns[..|ns| - 1])
    requires ns[|ns| - 1].address !in AddressesOf(d)
    requires forall k :: 0 <= k < |d| ==> d[k].address in AddressesOf(ns[..|ns| - 1])
    ensures ns[|ns| - 1].address in AddressesOf(ns) && FirstIndex(ns, ns[|ns| - 1].address) == |ns| - 1
    ensures forall k :: 0 <= k < |d| ==>
      d[k].address in AddressesOf(ns) && FirstIndex(ns, d[k].address) < |ns| - 1
  {
    var init := ns[..|ns| - 1];
    var x := ns[|ns| - 1];
    DedupAddresses(init);
    assert AddressesOf(ns)[|ns| - 1] == x.address;
    forall j | 0 <= j < |ns| - 1 ensures ns[j].address != x.address {
      assert AddressesOf(init)[j] == ns[j].address;
    }
    forall k | 0 <= k < |d| ensures d[k].address in AddressesOf(ns) && FirstIndex(ns, d[k].address) < |ns| - 1 {
      FirstIndexPrefix(ns, |ns| - 1, d[k].address);
    }
  }

  // ---------------------------------------------------------------------------
  // Filtering by validity

  /** The nodes whose flag is `v`, in their original order. */
  function FilterValid(ns: seq<RpcNode>, v: bool): seq<RpcNode>
  {
    if |ns| == 0 then []
    else FilterValid(ns[..|ns| - 1], v) + (if ns[|ns| - 1].valid == v then [ns[|ns| - 1]] else [])
  }

  /** `valid(v)` keeps exactly the nodes whose flag is `v`, in order, and
      keeps the addresses distinct. */
  lemma FilterValidSpec(ns: seq<RpcNode>, v: bool)
    ensures forall n :: n in FilterValid(ns, v) <==> n in ns && n.valid == v
    ensures Distinct(AddressesOf(ns)) ==> Distinct(AddressesOf(FilterValid(ns, v)))
    ensures Distinct(AddressesOf(ns)) ==> forall a :: a in AddressesOf(FilterValid(ns, v)) ==> a in AddressesOf(ns)
  {
    FilterValidMembers(ns, v);
    if Distinct(AddressesOf(ns)) {
      FilterValidDistinct(ns, v);
      forall a | a in AddressesOf(FilterValid(ns, v)) ensures a in AddressesOf(ns) {
        var i :| 0 <= i < |FilterValid(ns, v)| && AddressesOf(FilterValid(ns, v))[i] == a;
        var j :| 0 <= j < |ns| && ns[j] == FilterValid(ns, v)[i];
        assert AddressesOf(ns)[j] == a;
      }
    }
  }

  /** `valid(v)` keeps exactly the nodes whose flag is `v`. */
  lemma {:induction false} FilterValidMembers(ns: seq<RpcNode>, v: bool)
    ensures forall n :: n in FilterValid(ns, v) <==> n in ns && n.valid == v
    decreases |ns|
  {
    if |ns| > 0 {
      var init := ns[..|ns| - 1];
      FilterValidMembers(init, v);
      assert ns == init + [ns[|ns| - 1]];
    }
  }

  /** `valid(v)` of a list with distinct addresses has distinct addresses. */
  lemma {:induction false} FilterValidDistinct(ns: seq<RpcNode>, v: bool)
    requires Distinct(AddressesOf(ns))
    ensures Distinct(AddressesOf(FilterValid(ns, v)))
    decreases |ns|
  {
    if |ns| > 0 {
      var init := ns[..|ns| - 1];
      var x := ns[|ns| - 1];
      var f := FilterValid(init, v);
      assert Distinct(AddressesOf(init)) by {
        forall i, j | 0 <= i < j < |init| ensures AddressesOf(init)[i] != AddressesOf(init)[j] {
          assert AddressesOf(ns)[i] != AddressesOf(ns)[j];
        }
      }
      FilterValidDistinct(init, v);
      if x.valid == v {
        FilterValidMembers(init, v);
        forall i | 0 <= i < |f| ensures AddressesOf(f)[i] != x.address {
          var j :| 0 <= j < |init| && init[j] == f[i];
          assert AddressesOf(ns)[j] != AddressesOf(ns)[|ns| - 1];
        }
        assert AddressesOf(f + [x]) == AddressesOf(f) + [x.address];
      }
    }
  }


  /** A list whose addresses are already distinct is its own deduplication. */
  lemma {:induction false} DedupOfDistinct(ns: seq<RpcNode>)
    requires Distinct(AddressesOf(ns))
    ensures Dedup(ns) == ns
    decreases |ns|
  {
    if |ns| > 0 {
      var init := ns[..|ns| - 1];
      var x := ns[|ns| - 1];
      assert Distinct(AddressesOf(init)) by {
        forall i, j | 0 <= i < j < |init| ensures AddressesOf(init)[i] != AddressesOf(init)[j] {
          assert AddressesOf(ns)[i] != AddressesOf(ns)[j];
        }
      }
      DedupOfDistinct(init);
      forall j | 0 <= j < |init| ensures AddressesOf(init)[j] != x.address {
        assert AddressesOf(ns)[j] != AddressesOf(ns)[|ns| - 1];
      }
      assert ns == init + [x];
    }
  }

  // ---------------------------------------------------------------------------
  // Shuffling

  /** `p` lists every index below `n` exactly once. */
  predicate IsPermutation(p: seq<nat>, n: nat)
  {
    && |p| == n
    && (forall i :: 0 <= i < n ==> p[i] < n)
    && (forall i, j :: 0 <= i < j < n ==> p[i] != p[j])
    && (forall k :: 0 <= k < n ==> k in p)
  }

  /** `random.shuffle`'s effect: the element at `p[i]` moves to position
      `i`, and the result holds exactly the elements of `s`. */
  function Permute<T>(s: seq<T>, p: seq<nat>): (r: seq<T>)
    requires IsPermutation(p, |s|)
    ensures |r| == |s| && forall i :: 0 <= i < |s| ==> r[i] == s[p[i]]
    ensures multiset(r) == multiset(s)
  {
    var r := seq(|s|, i requires 0 <= i < |s| => s[p[i]]);
    PermutedMultiset(s, p, r);
    r
  }

  /** Reordering by a permutation keeps the multiset: take out the position
      `k` that receives the last element of `s`, and what remains is `s`
      without its last element reordered by a permutation one shorter. */
  lemma {:induction false} PermutedMultiset<T>(s: seq<T>, p: seq<nat>, r: seq<T>)
    requires IsPermutation(p, |s|)
    requires |r| == |s| && forall i :: 0 <= i < |s| ==> r[i] == s[p[i]]
    ensures multiset(r) == multiset(s)
    decreases |s|
  {
    if |s| > 0 {
      var n := |s| - 1;
      assert n in p;
      var k :| 0 <= k < |p| && p[k] == n;
      PermutationWithout(p, k);
      var p', r' := p[..k] + p[k + 1..], r[..k] + r[k + 1..];
      PermutedWithout(s, p, r, k, p', r');
      PermutedMultiset(s[..n], p', r');
      MultisetWithout(r, k);
      assert s == s[..n] + [s[n]];
    }
  }

  /** Taking out position `k` of `r`, and the same position of `p`, keeps
      `r` a reordering of `s` without its last element. */
  lemma PermutedWithout<T>(s: seq<T>, p: seq<nat>, r: seq<T>, k: nat, p': seq<nat>, r': seq<T>)
    requires |s| > 0 && IsPermutation(p, |s|) && |r| == |s| && k < |p|
    requires forall i :: 0 <= i < |s| ==> r[i] == s[p[i]]
    requires p' == p[..k] + p[k + 1..] && r' == r[..k] + r[k + 1..]
    requires IsPermutation(p', |s| - 1)
    ensures forall i :: 0 <= i < |s| - 1 ==> r'[i] == s[..|s| - 1][p'[i]]
  {
    forall i | 0 <= i < |s| - 1 ensures r'[i] == s[..|s| - 1][p'[i]] {
      if i < k {
        assert r'[i] == r[i] && p'[i] == p[i];
      } else {
        assert r'[i] == r[i + 1] && p'[i] == p[i + 1];
      }
    }
  }

  /** The multiset of `a` is that of `a` without position `k`, plus `a[k]`. */
  lemma MultisetWithout<T>(a: seq<T>, k: nat)
    requires k < |a|
    ensures multiset(a) == multiset(a[..k] + a[k + 1..]) + multiset{a[k]}
  {
    assert a == a[..k] + [a[k]] + a[k + 1..];
  }

  /** Dropping the position that holds the largest index `n - 1` from a
      permutation of `n` leaves a permutation of `n - 1`. */
  lemma PermutationWithout(p: seq<nat>, k: nat)
    requires |p| > 0 && IsPermutation(p, |p|) && k < |p| && p[k] == |p| - 1
    ensures IsPermutation(p[..k] + p[k + 1..], |p| - 1)
  {
    var n := |p| - 1;
    var p' := p[..k] + p[k + 1..];
    forall i | 0 <= i < n ensures p'[i] < n {
      if i < k {
        assert p'[i] == p[i] && p[i] != p[k];
      } else {
        assert p'[i] == p[i + 1] && p[i + 1] != p[k];
      }
    }
    forall i, j | 0 <= i < j < n ensures p'[i] != p'[j] {
      var i0 := if i < k then i else i + 1;
      var j0 := if j < k then j else j + 1;
      assert p'[i] == p[i0] && p'[j] == p[j0] && i0 < j0;
    }
    forall m | 0 <= m < n ensures m in p' {
      assert m in p;
      var j :| 0 <= j < |p| && p[j] == m;
      if j < k {
        assert p'[j] == m;
      } else {
        assert p'[j - 1] == m;
      }
    }
  }

  // ---------------------------------------------------------------------------
  // The cache snapshot

  /** One persisted node: `{address, port, dt}`. */
  datatype CacheEntry = CacheEntry(address: string, port: int, dt: string)

  /** What `cache_write` puts in the file: the nodes whose flag is set. */
  function CacheEntries(ns: seq<RpcNode>): (es: seq<CacheEntry>)
    ensures |es| == |FilterValid(ns, true)|
    ensures forall i :: 0 <= i < |es| ==>
      es[i] == CacheEntry(FilterValid(ns, true)[i].address, FilterValid(ns, true)[i].port, FilterValid(ns, true)[i].dt)
  {
    var vs := FilterValid(ns, true);
    seq(|vs|, i requires 0 <= i < |vs| => CacheEntry(vs[i].address, vs[i].port, vs[i].dt))
  }

  /** One element of the decoded cache file. Missing keys are `None`; keys
      other than `address`, `port`, `dt` and `uid` are collected in `extra`. */
  datatype CacheItem =
    | NotADict
    | Item(address: Option<string>, port: Option<int>, dt: Option<Value>,
           uid: Option<Value>, extra: map<string, Value>)

  /** The decoded cache file: unreadable or not JSON, some other JSON value,
      or a list. */
  datatype CacheFile = Unreadable | NotAList | Items(items: seq<CacheItem>)

  /** The item makes `cache_read` raise: `node['dt']` on a non-dictionary or
      on a dictionary without `dt`, or a `dt` that `dateutil` cannot parse
      (`parsable` stands for dateutil's parser; a non-string never parses). */
  predicate ItemRaises(item: CacheItem, parsable: string -> bool)
  {
    item.NotADict? || item.dt.None? || !item.dt.value.Str? || !parsable(item.dt.value.s)
  }

  /** `RpcNode(**node)` for an item that has an address. */
  function ItemNode(item: CacheItem): (n: RpcNode)
    requires item.Item? && item.address.Some? && item.dt.Some? && item.dt.value.Str?
    ensures !n.valid && n.address == item.address.value && n.dt == item.dt.value.s
  {
    NewNode(item.address.value,
            if item.uid.Some? then item.uid.value else Nil,
            if item.port.Some? then item.port.value else DefaultRpcPort,
            item.dt.value.s, item.extra)
  }

  /** The nodes built from a raise-free item list, before deduplication. */
  function ItemNodes(items: seq<CacheItem>, parsable: string -> bool): seq<RpcNode>
    requires forall i :: 0 <= i < |items| ==> !ItemRaises(items[i], parsable)
  {
    if |items| == 0 then []
    else
      var last := items[|items| - 1];
      assert !ItemRaises(last, parsable);
      ItemNodes(items[..|items| - 1], parsable) + (if last.address.Some? then [ItemNode(last)] else [])
  }

  /** `RpcNodeList.cache_read(path)`: `None` when it raises; no list for an
      unreadable file or a non-list document; otherwise one node per item with
      an address, first one per address. The parsed `dt` is never compared
      with anything: no entry is dropped for its age. */
  function CacheReadSpec(file: CacheFile, parsable: string -> bool): Option<seq<RpcNode>>
  {
    match file
    case Unreadable => Some([])
    case NotAList => Some([])
    case Items(items) =>
      if exists i :: 0 <= i < |items| && ItemRaises(items[i], parsable) then None
      else Some(Dedup(ItemNodes(items, parsable)))
  }

  /** How `cache_write`'s entries come back from `json.loads(json.dumps(...))`. */
  function EntryItem(e: CacheEntry): CacheItem
  {
    Item(Some(e.address), Some(e.port), Some(Str(e.dt)), None, map[])
  }

  function EntryItems(es: seq<CacheEntry>): (items: seq<CacheItem>)
    ensures |items| == |es| && forall i :: 0 <= i < |es| ==> items[i] == EntryItem(es[i])
  {
    seq(|es|, i requires 0 <= i < |es| => EntryItem(es[i]))
  }

  /** A node as it comes back from the cache: same address, port and first-check
      time, not valid, no record id and no extra arguments. */
  function Reloaded(n: RpcNode): RpcNode
  {
    NewNode(n.address, Nil, n.port, n.dt)
  }

  lemma ItemNodesOfEntries(ns: seq<RpcNode>, parsable: string -> bool)
    requires forall i :: 0 <= i < |ns| ==> parsable(ns[i].dt)
    requires forall i :: 0 <= i < |EntryItems(CacheEntries(ns))| ==> !ItemRaises(EntryItems(CacheEntries(ns))[i], parsable)
    ensures ItemNodes(EntryItems(CacheEntries(ns)), parsable)
            == seq(|FilterValid(ns, true)|, i requires 0 <= i < |FilterValid(ns, true)| => Reloaded(FilterValid(ns, true)[i]))
  {
    var items := EntryItems(CacheEntries(ns));
    var vs := FilterValid(ns, true);
    ItemsReload(items, vs, parsable);
  }

  /** Entries written for the nodes `vs` read back, one by one, as those
      nodes reloaded. */
  lemma {:induction false} ItemsReload(items: seq<CacheItem>, vs: seq<RpcNode>, parsable: string -> bool)
    requires |items| == |vs|
    requires forall i :: 0 <= i < |vs| ==> items[i] == EntryItem(CacheEntry(vs[i].address, vs[i].port, vs[i].dt))
    requires forall i :: 0 <= i < |items| ==> !ItemRaises(items[i], parsable)
    ensures |ItemNodes(items, parsable)| == |vs|
    ensures forall i :: 0 <= i < |vs| ==> ItemNodes(items, parsable)[i] == Reloaded(vs[i])
    decreases |vs|
  {
    if |vs| > 0 {
      var n := |vs| - 1;
      var prev := ItemNodes(items[..n], parsable);
      ItemsReload(items[..n], vs[..n], parsable);
      assert ItemNodes(items, parsable) == prev + [ItemNode(items[n])];
      forall i | 0 <= i < n ensures ItemNodes(items, parsable)[i] == Reloaded(vs[i]) {
        assert prev[i] == Reloaded(vs[..n][i]);
      }
    }
  }


  /** Reading back what `cache_write` wrote gives exactly the valid nodes, in
      order, each reset to not valid: invalid nodes are never persisted. */
  lemma CacheRoundTrip(ns: seq<RpcNode>, parsable: string -> bool)
    requires Distinct(AddressesOf(ns))
    requires forall i :: 0 <= i < |ns| ==> parsable(ns[i].dt)
    ensures CacheReadSpec(Items(EntryItems(CacheEntries(ns))), parsable)
            == Some(seq(|FilterValid(ns, true)|, i requires 0 <= i < |FilterValid(ns, true)| => Reloaded(FilterValid(ns, true)[i])))
  {
    var items := EntryItems(CacheEntries(ns));
    var vs := FilterValid(ns, true);
    EntriesParse(ns, parsable);
    ItemNodesOfEntries(ns, parsable);
    ItemsReload(items, vs, parsable);
    FilterValidDistinct(ns, true);
    var back := ItemNodes(items, parsable);
    assert AddressesOf(back) == AddressesOf(vs) by {
      forall i | 0 <= i < |vs| ensures AddressesOf(back)[i] == AddressesOf(vs)[i] {
        assert back[i] == Reloaded(vs[i]);
      }
    }
    DedupOfDistinct(back);
    assert CacheReadSpec(Items(items), parsable) == Some(Dedup(back));
  }

  /** Every written entry of nodes with parsable timestamps reads back
      without raising. */
  lemma EntriesParse(ns: seq<RpcNode>, parsable: string -> bool)
    requires forall i :: 0 <= i < |ns| ==> parsable(ns[i].dt)
    ensures forall i :: 0 <= i < |EntryItems(CacheEntries(ns))| ==> !ItemRaises(EntryItems(CacheEntries(ns))[i], parsable)
  {
    var vs := FilterValid(ns, true);
    FilterValidMembers(ns, true);
    forall i | 0 <= i < |vs| ensures parsable(vs[i].dt) {
      assert vs[i] in ns;
    }
  }

  // ---------------------------------------------------------------------------
  // The list

  /** `RpcNodeList`: the nodes, and beside them the list of their addresses
      that `append` consults. */
  class RpcNodeList {
    var nodes: seq<RpcNode>
    var addresses: seq<string>

    /** No address twice, and `addresses` holds exactly the nodes' addresses. */
    ghost predicate Valid()
      reads this
    {
      && |addresses| == |nodes|
      && Distinct(addresses)
      && Distinct(AddressesOf(nodes))
      && (forall a :: a in addresses <==> a in AddressesOf(nodes))
    }

    /** `addresses` lists the nodes' addresses in the nodes' order; this holds
        until `shuffle` reorders `nodes` alone. */
    ghost predicate InOrder()
      reads this
    {
      addresses == AddressesOf(nodes)
    }

    constructor ()
      ensures Valid() && InOrder()
      ensures nodes == [] && addresses == []
    {
      nodes := [];
      addresses := [];
    }

    /** `append`: a node whose address is present changes nothing; any other
        node goes at the end of both lists. */
    method Append(node: RpcNode)
      requires Valid()
      modifies this
      ensures Valid()
      ensures old(InOrder()) ==> InOrder()
      ensures node.address in old(addresses) ==> nodes == old(nodes) && addresses == old(addresses)
      ensures node.address !in old(addresses) ==>
        nodes == old(nodes) + [node] && addresses == old(addresses) + [node.address]
    {
      if node.address !in addresses {
        assert AddressesOf(nodes + [node]) == AddressesOf(nodes) + [node.address];
        nodes := nodes + [node];
        addresses := addresses + [node.address];
      }
    }

    /** Appends every node of `src` in order (the loop of `from_list` and of
        `__add__`). */
    method AppendAll(src: seq<RpcNode>)
      requires Valid()
      modifies this
      ensures Valid()
      ensures old(InOrder()) ==> InOrder()
      ensures nodes == old(nodes) + Appended(old(addresses), src)
      ensures addresses == old(addresses) + AddressesOf(Appended(old(addresses), src))
    {
      var i := 0;
      while i < |src|
        invariant 0 <= i <= |src|
        invariant Valid()
        invariant old(InOrder()) ==> InOrder()
        invariant nodes == old(nodes) + Appended(old(addresses), src[..i])
        invariant addresses == old(addresses) + AddressesOf(Appended(old(addresses), src[..i]))
      {
        ghost var p := Appended(old(addresses), src[..i]);
        assert src[..i + 1][..i] == src[..i];
        assert AddressesOf(p + [src[i]]) == AddressesOf(p) + [src[i].address];
        Append(src[i]);
        i := i + 1;
      }
      assert src[..i] == src;
    }

    /** `RpcNodeList.from_list(ns)`. */
    static method FromList(ns: seq<RpcNode>) returns (l: RpcNodeList)
      ensures fresh(l) && l.Valid() && l.InOrder()
      ensures l.nodes == Dedup(ns)
    {
      l := new RpcNodeList();
      l.AppendAll(ns);
    }

    /** `__contains__`: membership by address. */
    function Contains(address: string): (r: bool)
      reads this
      requires Valid()
      ensures r <==> address in AddressesOf(nodes)
      ensures r <==> exists i :: 0 <= i < |nodes| && nodes[i].address == address
    {
      assert address in AddressesOf(nodes) ==> exists i :: 0 <= i < |nodes| && nodes[i].address == address;
      assert (exists i :: 0 <= i < |nodes| && nodes[i].address == address) ==> address in AddressesOf(nodes) by {
        if i :| 0 <= i < |nodes| && nodes[i].address == address {
          assert AddressesOf(nodes)[i] == address;
        }
      }
      address in addresses
    }

    /** `__len__`: the number of nodes, which is the number of distinct
        addresses held. */
    function Length(): (n: nat)
      reads this
      requires Valid()
      ensures n == |nodes| == |addresses|
    {
      |nodes|
    }

    /** `valid(v)`: a new list of the nodes whose flag is `v`, in order. */
    method ValidNodes(v: bool) returns (l: RpcNodeList)
      requires Valid()
      ensures fresh(l) && l.Valid() && l.InOrder()
      ensures l.nodes == FilterValid(nodes, v)
      ensures forall n :: n in l.nodes <==> n in nodes && n.valid == v
    {
      FilterValidSpec(nodes, v);
      DedupOfDistinct(FilterValid(nodes, v));
      l := FromList(FilterValid(nodes, v));
    }

    /** `__add__` with another list: appends its nodes into this one, which is
        changed and returned. */
    method AddList(other: RpcNodeList) returns (r: RpcNodeList)
      requires Valid()
      modifies this
      ensures r == this && Valid()
      ensures old(InOrder()) ==> InOrder()
      ensures nodes == old(nodes) + Appended(old(addresses), old(other.nodes))
      ensures addresses == old(addresses) + AddressesOf(Appended(old(addresses), old(other.nodes)))
    {
      var src := other.nodes;
      AppendAll(src);
      r := this;
    }

    /** `__add__` with a single node: appends it and returns this list. */
    method AddNode(node: RpcNode) returns (r: RpcNodeList)
      requires Valid()
      modifies this
      ensures r == this && Valid()
      ensures old(InOrder()) ==> InOrder()
      ensures node.address in old(addresses) ==> nodes == old(nodes) && addresses == old(addresses)
      ensures node.address !in old(addresses) ==>
        nodes == old(nodes) + [node] && addresses == old(addresses) + [node.address]
    {
      Append(node);
      r := this;
    }

    /** `shuffle`: reorders `nodes` by the permutation `perm` (the random
        choice); `addresses` keeps its order. */
    method Shuffle(perm: seq<nat>)
      requires Valid() && IsPermutation(perm, |nodes|)
      modifies this
      ensures Valid()
      ensures nodes == Permute(old(nodes), perm) && addresses == old(addresses)
      ensures multiset(nodes) == multiset(old(nodes))
    {
      ghost var before := nodes;
      nodes := Permute(nodes, perm);
      forall a | a in AddressesOf(before) ensures a in AddressesOf(nodes) {
        var k :| 0 <= k < |before| && AddressesOf(before)[k] == a;
        assert k in perm;
        var i :| 0 <= i < |perm| && perm[i] == k;
        assert AddressesOf(nodes)[i] == a;
      }
      forall a | a in AddressesOf(nodes) ensures a in AddressesOf(before) {
        var i :| 0 <= i < |nodes| && AddressesOf(nodes)[i] == a;
        assert AddressesOf(before)[perm[i]] == a;
      }
      forall i, j | 0 <= i < j < |nodes| ensures AddressesOf(nodes)[i] != AddressesOf(nodes)[j] {
        assert AddressesOf(before)[perm[i]] != AddressesOf(before)[perm[j]] by {
          if perm[i] < perm[j] {} else {}
        }
      }
    }

    /** `cache_write`: the entries `{address, port, dt}` of the valid nodes;
        a failed write (`writeOk` false) is re-raised. */
    method CacheWrite(writeOk: bool) returns (written: Option<seq<CacheEntry>>)
      ensures written == (if writeOk then Some(CacheEntries(nodes)) else None)
    {
      var data: seq<CacheEntry> := [];
      var i := 0;
      while i < |nodes|
        invariant 0 <= i <= |nodes|
        invariant data == CacheEntries(nodes[..i])
      {
        assert nodes[..i + 1][..i] == nodes[..i];
        if nodes[i].valid {
          data := data + [CacheEntry(nodes[i].address, nodes[i].port, nodes[i].dt)];
        }
        i := i + 1;
      }
      assert nodes[..i] == nodes;
      if writeOk {
        written := Some(data);
      } else {
        written := None;
      }
    }

    /** `RpcNodeList.cache_read(path)` over the decoded file; `raised` when
        Python raises. */
    static method CacheRead(file: CacheFile, parsable: string -> bool) returns (raised: bool, l: RpcNodeList)
      ensures fresh(l) && l.Valid() && l.InOrder()
      ensures raised <==> CacheReadSpec(file, parsable).None?
      ensures !raised ==> l.nodes == CacheReadSpec(file, parsable).value
    {
      l := new RpcNodeList();
      raised := false;
      if !file.Items? {
        return;
      }
      var items := file.items;
      var i := 0;
      while i < |items|
        invariant 0 <= i <= |items|
        invariant fresh(l) && l.Valid() && l.InOrder()
        invariant forall k :: 0 <= k < i ==> !ItemRaises(items[k], parsable)
        invariant l.nodes == Dedup(ItemNodes(items[..i], parsable))
      {
        var item := items[i];
        if ItemRaises(item, parsable) {
          raised := true;
          l := new RpcNodeList();
          return;
        }
        ItemNodesSnoc(items, i, parsable);
        if item.address.Some? {
          AppendedSnoc(ItemNodes(items[..i], parsable), ItemNode(item));
          l.Append(ItemNode(item));
        }
        i := i + 1;
      }
      assert items[..i] == items;
    }
  }

  /** Reading one more cache entry: an entry with an address adds its node,
      any other adds nothing. */
  lemma ItemNodesSnoc(items: seq<CacheItem>, i: nat, parsable: string -> bool)
    requires i < |items|
    requires forall k :: 0 <= k <= i ==> !ItemRaises(items[k], parsable)
    ensures items[i].Item?
    ensures items[i].address.Some? ==>
      ItemNodes(items[..i + 1], parsable) == ItemNodes(items[..i], parsable) + [ItemNode(items[i])]
    ensures items[i].address.None? ==> ItemNodes(items[..i + 1], parsable) == ItemNodes(items[..i], parsable)
  {
    assert items[..i + 1][..i] == items[..i];
  }

  /** Deduplicating one more node: `append`'s test against the deduplicated
      prefix. */
  lemma AppendedSnoc(ns: seq<RpcNode>, x: RpcNode)
    ensures Dedup(ns + [x]) == if x.address in AddressesOf(Dedup(ns)) then Dedup(ns) else Dedup(ns) + [x]
  {
    assert (ns + [x])[..|ns|] == ns;
  }
}
