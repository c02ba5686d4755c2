/** seed_nodes_generator.py: turns the node URLs a public directory lists
    into the set of addresses of the nodes that serve the restricted RPC
    port. */
module Seeds {
  import opened Values
  import opened Strings

  /** Only URLs ending in the restricted RPC port are kept. */
  const PortSuffix: string := "18089"

  /** `url.split("://")[1]` when the URL names a scheme: what lies between
      the first `://` and the next one. */
  function AfterScheme(url: string): string
  {
    if Contains(url, "://") then
      var parts := SplitOn(url, "://");
      assert |parts| >= 2;
      parts[1]
    else url
  }

  /** The host `url_to_ip` resolves: after the scheme, up to the first `:`. */
  function Host(url: string): (h: string)
    ensures ':' !in h
  {
    var u := AfterScheme(url);
    if ':' in u then
      SplitPartsFree(u, ':');
      Split(u, ':')[0]
    else u
  }

  /** `url_to_ip(url)`, with the name resolution given: `None` where
      `gethostbyname` fails. */
  function UrlToIp(url: string, resolve: string -> Option<string>): Option<string>
  {
    resolve(Host(url))
  }

  /** A `host:port` pair with a numeric port splits back into the host. */
  lemma HostPort(host: string, port: string)
    requires ':' !in host && IsDigits(port)
    ensures !Contains(host + ":" + port, "://")
    ensures Host(host + ":" + port) == host
  {
    var u := host + ":" + port;
    forall j: nat
      ensures !OccursAt(u, "://", j)
    {
      if j + 3 <= |u| {
        if j < |host| {
          assert u[j] == host[j];
          assert u[j..j + 3][0] != "://"[0];
        } else if j == |host| {
          assert u[j + 1] == port[0] && IsDigit(port[0]);
          assert u[j..j + 3][1] != "://"[1];
        } else {
          assert u[j] == port[j - |host| - 1] && IsDigit(port[j - |host| - 1]);
          assert u[j..j + 3][0] != "://"[0];
        }
      }
    }
    assert Join([host, port], [':']) == u;
    JoinSplit([host, port], ':');
    assert u[|host|] == ':';
  }

  /** `url_to_ip` resolves the host of `scheme://host:port` and of
      `host:port`, for a scheme and host without `:` and a numeric port. */
  lemma HostOfUrl(scheme: string, host: string, port: string)
    requires ':' !in scheme && ':' !in host && IsDigits(port)
    ensures Host(scheme + "://" + host + ":" + port) == host
    ensures Host(host + ":" + port) == host
  {
    HostPort(host, port);
    var rest := host + ":" + port;
    var url := scheme + "://" + rest;
    assert OccursAt(url, "://", |scheme|);
    forall j | 0 <= j < |scheme|
      ensures !OccursAt(url, "://", j)
    {
      assert url[j] == scheme[j];
      assert url[j..j + 3][0] != "://"[0];
    }
    var k := Find(url, "://").value;
    assert url[k + 3..] == rest;
    assert SplitOn(url, "://")[1] == SplitOn(rest, "://")[0];
    assert SplitOn(rest, "://") == [rest];
    assert AfterScheme(url) == rest;
    assert scheme + "://" + host + ":" + port == url;
  }

  /** The addresses `main` collects from the URLs, in the order they are
      first resolved; a failed resolution adds nothing. */
  function SeedSet(urls: seq<string>, resolve: string -> Option<string>): set<string>
  {
    if |urls| == 0 then {}
    else
      var u := urls[|urls| - 1];
      var ip := if EndsWith(u, PortSuffix) then UrlToIp(u, resolve) else None;
      SeedSet(urls[..|urls| - 1], resolve) + (if ip.Some? then {ip.value} else {})
  }

  /** An address is collected exactly when some URL ending in the port
      resolves to it. */
  lemma {:induction false} SeedSetExactly(urls: seq<string>, resolve: string -> Option<string>)
    ensures forall ip :: ip in SeedSet(urls, resolve) <==>
      exists u :: u in urls && EndsWith(u, PortSuffix) && UrlToIp(u, resolve) == Some(ip)
    decreases |urls|
  {
    if |urls| > 0 {
      SeedSetExactly(urls[..|urls| - 1], resolve);
      assert urls == urls[..|urls| - 1] + [urls[|urls| - 1]];
    }
  }

  /** The loop of `main`: each URL ending in the port is resolved, and an
      address that resolved goes into the set. */
  method CollectSeeds(urls: seq<string>, resolve: string -> Option<string>) returns (ipList: set<string>)
    ensures ipList == SeedSet(urls, resolve)
  {
    ipList := {};
    var i := 0;
    while i < |urls|
      invariant i <= |urls|
      invariant ipList == SeedSet(urls[..i], resolve)
    {
      assert urls[..i + 1][..i] == urls[..i];
      var url := urls[i];
      if EndsWith(url, PortSuffix) {
        var ip := UrlToIp(url, resolve);
        if ip != None {
          ipList := ipList + {ip.value};
        }
      }
      i := i + 1;
    }
    assert urls[..i] == urls;
  }
}
