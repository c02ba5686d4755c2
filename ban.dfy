/** ban.py: fetching a list of banned addresses and compressing it into a
    filter of two-octet prefixes, three-octet prefixes and single addresses. */
module Ban {
  import opened Values
  import opened Strings
  import opened Utils

  // ---------------------------------------------------------------------------
  // get_ban_list

  /** The answer to the ban-list download: a `RequestException`, or a response
      with its status and its text (`None` when the body cannot be decoded). */
  datatype BanListReply = RequestFailed | BanListResponse(status: int, text: Option<string>)

  /** `get_ban_list()`: one stripped entry per line of a 200 response, and
      `[]` for anything else. */
  method GetBanList(reply: BanListReply) returns (banList: seq<string>)
    ensures reply.BanListResponse? && reply.status == 200 && reply.text.Some? ==>
      banList == StrippedLines(reply.text.value)
    ensures !(reply.BanListResponse? && reply.status == 200 && reply.text.Some?) ==> banList == []
  {
    banList := [];
    if reply.RequestFailed? || reply.status != 200 || reply.text.None? {
      return;
    }
    var lines := Lines(reply.text.value);
    var i := 0;
    while i < |lines|
      invariant 0 <= i <= |lines|
      invariant banList == StrippedLines(reply.text.value)[..i]
    {
      banList := banList + [Strip(lines[i])];
      i := i + 1;
    }
  }

  // ---------------------------------------------------------------------------
  // build_filter

  /** `'.'.join(ip.split('.')[:octets])`: the first `octets` dot-separated
      fields of `ip`, which is a prefix of `ip` followed by a dot when
      shorter. */
  function Mask(ip: string, octets: nat): (m: string)
    requires octets >= 1
    ensures m <= ip
    ensures |m| < |ip| ==> ip[|m|] == '.'
  {
    var parts := Split(ip, '.');
    var k := if octets <= |parts| then octets else |parts|;
    JoinSplitPrefix(ip, '.', k);
    assert SlicePrefix(parts, octets) == parts[..k];
    Join(SlicePrefix(parts, octets), ".")
  }

  /** How many entries have the prefix `m` of `octets` fields. */
  function Count(ban: seq<string>, m: string, octets: nat): nat
    requires octets >= 1
  {
    if |ban| == 0 then 0
    else Count(ban[..|ban| - 1], m, octets) + (if Mask(ban[|ban| - 1], octets) == m then 1 else 0)
  }

  /** The two-octet prefixes, each taken at its fourth occurrence. */
  function F16(ban: seq<string>): seq<string>
  {
    if |ban| == 0 then []
    else
      var m := Mask(ban[|ban| - 1], 2);
      F16(ban[..|ban| - 1]) + (if Count(ban, m, 2) == 4 then [m] else [])
  }

  /** A two-octet prefix is in the filter exactly when at least four entries
      share it, and it is there once. */
  lemma {:induction false} F16Exact(ban: seq<string>)
    ensures forall m :: m in F16(ban) <==> Count(ban, m, 2) >= 4
    ensures Distinct(F16(ban))
    decreases |ban|
  {
    if |ban| > 0 {
      var init := ban[..|ban| - 1];
      var m := Mask(ban[|ban| - 1], 2);
      F16Exact(init);
      if Count(ban, m, 2) == 4 {
        assert m !in F16(init);
      }
    }
  }

  /** The entries with the three-octet prefix `m` whose two-octet prefix is
      not in `f16`: the ones the second pass counts. */
  function CountEligible(ban: seq<string>, m: string, f16: seq<string>): nat
  {
    if |ban| == 0 then 0
    else
      var ip := ban[|ban| - 1];
      CountEligible(ban[..|ban| - 1], m, f16) + (if Mask(ip, 3) == m && Mask(ip, 2) !in f16 then 1 else 0)
  }

  /** One more entry adds one to the count of its own three-octet prefix
      when it is eligible, and nothing to any other. */
  lemma CountEligibleStep(ban: seq<string>, i: nat, f16: seq<string>)
    requires i < |ban|
    ensures forall m :: CountEligible(ban[..i + 1], m, f16) ==
                        CountEligible(ban[..i], m, f16) + (if Mask(ban[i], 3) == m && Mask(ban[i], 2) !in f16 then 1 else 0)
  {
    assert ban[..i + 1][..i] == ban[..i];
  }

  lemma DistinctSnoc(s: seq<string>, x: string)
    requires Distinct(s) && x !in s
    ensures Distinct(s + [x])
  {
  }

  /** The entry is covered by the filter: itself or one of its prefixes is in
      it. */
  predicate Covered(ip: string, filter: seq<string>)
  {
    Mask(ip, 2) in filter || Mask(ip, 3) in filter || ip in filter
  }

  /** `build_filter(ban_list)`. The result is the two-octet prefixes, then
      the three-octet prefixes `f24`, then the single addresses `singles`. */
  method BuildFilter(banList: seq<string>) returns (ipFilter: seq<string>, ghost f24: seq<string>, ghost singles: seq<string>)
    ensures ipFilter == F16(banList) + f24 + singles
    ensures Distinct(ipFilter)
    ensures forall m :: m in F16(banList) <==> Count(banList, m, 2) >= 4
    ensures forall m :: m in f24 ==> CountEligible(banList, m, F16(banList)) >= 4
    ensures forall s :: s in singles ==>
      s in banList && Mask(s, 2) !in F16(banList) + f24 && Mask(s, 3) !in F16(banList) + f24
    ensures forall ip :: ip in banList ==> Covered(ip, ipFilter)
  {
    ghost var f16;
    ipFilter, f16 := CountMask16(banList);
    ipFilter, f24 := CountMask24(banList, ipFilter);
    ipFilter, singles := AddSingles(banList, ipFilter, f24);
  }

  /** The first loop of `build_filter`: count two-octet prefixes in
      `mask16_counts` (0 at the first occurrence, at most 2) and add a prefix
      once it is seen again at 2. */
  method CountMask16(banList: seq<string>) returns (ipFilter: seq<string>, ghost f16: seq<string>)
    ensures ipFilter == F16(banList) == f16
    ensures Distinct(ipFilter)
    ensures forall m :: m in F16(banList) <==> Count(banList, m, 2) >= 4
  {
    ipFilter := [];
    var mask16Counts: map<string, int> := map[];
    var i := 0;
    while i < |banList|
      invariant 0 <= i <= |banList|
      invariant Mask16Progress(banList, i, ipFilter, mask16Counts)
    {
      ipFilter, mask16Counts := CountMask16Entry(banList, i, ipFilter, mask16Counts);
      i := i + 1;
    }
    assert banList[..i] == banList;
    F16Exact(banList);
    f16 := ipFilter;
  }

  /** What the first loop keeps after its first `i` entries: the filter is
      the prefixes met four times so far, and the counter of a prefix met `n`
      times is `n - 1`, capped at 2. */
  ghost predicate Mask16Progress(banList: seq<string>, i: nat, ipFilter: seq<string>, mask16Counts: map<string, int>)
  {
    && i <= |banList|
    && ipFilter == F16(banList[..i])
    && (forall m :: m in mask16Counts <==> Count(banList[..i], m, 2) >= 1)
    && (forall m :: m in mask16Counts ==>
          mask16Counts[m] == if Count(banList[..i], m, 2) >= 3 then 2 else Count(banList[..i], m, 2) - 1)
  }

  /** One turn of the first loop. */
  method CountMask16Entry(banList: seq<string>, i: nat, ipFilter: seq<string>, mask16Counts: map<string, int>)
    returns (ipFilter': seq<string>, mask16Counts': map<string, int>)
    requires i < |banList| && Mask16Progress(banList, i, ipFilter, mask16Counts)
    ensures Mask16Progress(banList, i + 1, ipFilter', mask16Counts')
  {
    ipFilter', mask16Counts' := ipFilter, mask16Counts;
    var mask16 := Mask(banList[i], 2);
    assert banList[..i + 1][..i] == banList[..i];
    F16Exact(banList[..i]);
    if mask16 in mask16Counts {
      if mask16Counts[mask16] > 1 {
        if mask16 !in ipFilter {
          ipFilter' := ipFilter + [mask16];
        }
      } else {
        mask16Counts' := mask16Counts[mask16 := mask16Counts[mask16] + 1];
      }
    } else {
      mask16Counts' := mask16Counts[mask16 := 0];
    }
  }

  /** What the second loop keeps after its first `i` entries: the filter is
      the two-octet prefixes followed by the three-octet prefixes added so
      far, without repetition; each counter is at most 2 and below the number
      of eligible occurrences; each added prefix has at least four. */
  ghost predicate Mask24Progress(banList: seq<string>, i: nat, filter16: seq<string>,
                                 ipFilter: seq<string>, f24: seq<string>, mask24Counts: map<string, int>)
  {
    && i <= |banList|
    && ipFilter == filter16 + f24
    && Distinct(ipFilter)
    && (forall m :: m in mask24Counts ==>
          0 <= mask24Counts[m] <= 2 && mask24Counts[m] + 1 <= CountEligible(banList[..i], m, filter16))
    && (forall m :: m in f24 ==> CountEligible(banList[..i], m, filter16) >= 4)
  }

  /** The second loop: for entries whose two-octet prefix is not in the
      filter, count three-octet prefixes the same way and add each at its
      fourth counted occurrence. */
  method CountMask24(banList: seq<string>, filter16: seq<string>) returns (ipFilter: seq<string>, ghost f24: seq<string>)
    requires Distinct(filter16)
    ensures ipFilter == filter16 + f24
    ensures Distinct(ipFilter)
    ensures forall m :: m in f24 ==> CountEligible(banList, m, filter16) >= 4
  {
    ipFilter := filter16;
    f24 := [];
    var mask24Counts: map<string, int> := map[];
    var i := 0;
    while i < |banList|
      invariant Mask24Progress(banList, i, filter16, ipFilter, f24, mask24Counts)
    {
      ipFilter, f24, mask24Counts := CountMask24Entry(banList, i, filter16, ipFilter, f24, mask24Counts);
      i := i + 1;
    }
    assert banList[..i] == banList;
  }

  /** One iteration of the second loop, on entry `i`. */
  method CountMask24Entry(banList: seq<string>, i: nat, filter16: seq<string>,
                          ipFilter: seq<string>, ghost f24: seq<string>, mask24Counts: map<string, int>)
    returns (ipFilter': seq<string>, ghost f24': seq<string>, mask24Counts': map<string, int>)
    requires i < |banList|
    requires Mask24Progress(banList, i, filter16, ipFilter, f24, mask24Counts)
    ensures Mask24Progress(banList, i + 1, filter16, ipFilter', f24', mask24Counts')
  {
    ipFilter', f24', mask24Counts' := ipFilter, f24, mask24Counts;
    var ip := banList[i];
    var mask16 := Mask(ip, 2);
    var mask24 := Mask(ip, 3);
    CountEligibleStep(banList, i, filter16);
    if mask16 !in ipFilter {
      if mask24 in mask24Counts {
        if mask24Counts[mask24] > 1 {
          if mask24 !in ipFilter {
            DistinctSnoc(ipFilter, mask24);
            ipFilter' := ipFilter + [mask24];
            f24' := f24 + [mask24];
          }
        } else {
          mask24Counts' := mask24Counts[mask24 := mask24Counts[mask24] + 1];
        }
      } else {
        mask24Counts' := mask24Counts[mask24 := 0];
      }
    }
  }

  /** The third loop: add every entry none of whose prefixes, and which
      itself, is not yet in the filter. */
  method AddSingles(banList: seq<string>, filter: seq<string>, ghost f24: seq<string>)
    returns (ipFilter: seq<string>, ghost singles: seq<string>)
    requires Distinct(filter)
    ensures ipFilter == filter + singles
    ensures Distinct(ipFilter)
    ensures forall s :: s in singles ==> s in banList && Mask(s, 2) !in filter && Mask(s, 3) !in filter
    ensures forall ip :: ip in banList ==> Covered(ip, ipFilter)
  {
    ipFilter := filter;
    singles := [];
    var i := 0;
    while i < |banList|
      invariant 0 <= i <= |banList|
      invariant ipFilter == filter + singles
      invariant Distinct(ipFilter)
      invariant forall s :: s in singles ==> s in banList && Mask(s, 2) !in filter && Mask(s, 3) !in filter
      invariant forall k :: 0 <= k < i ==> Covered(banList[k], ipFilter)
    {
      var ip := banList[i];
      var mask16 := Mask(ip, 2);
      var mask24 := Mask(ip, 3);
      if !(mask16 in ipFilter || mask24 in ipFilter || ip in ipFilter) {
        DistinctSnoc(ipFilter, ip);
        ipFilter := ipFilter + [ip];
        singles := singles + [ip];
      }
      i := i + 1;
    }
  }
}
