/** moneriote/dns/__init__.py: the settings every DNS provider shares and
    the record name they manage. */
module Dns {
  import opened Values
  import opened Strings
  import opened Utils

  /** The subdomain used when none is configured. */
  const DefaultSubdomain: string := "node"
  /** The number of records kept when none is configured. */
  const DefaultMaxRecords: nat := 5

  /** `str(v)` of a configuration value. */
  function Show(v: Setting): string
  {
    match v
    case IntSetting(n) => ShowNat(n)
    case BoolSetting(b) => if b then "True" else "False"
    case TextSetting(s) => s
  }

  /** The Python value a configuration value stands for, for comparisons
      against decoded JSON. */
  function SettingValue(v: Setting): Value
  {
    match v
    case IntSetting(n) => Int(n)
    case BoolSetting(b) => Bool(b)
    case TextSetting(s) => Str(s)
  }

  /** The fields `DnsProvider.__init__` sets from its keyword arguments. */
  datatype DnsProvider = DnsProvider(domainName: Setting, subdomainName: Setting,
                                     apiKey: Setting, apiEmail: Setting, maxRecords: Setting)

  /** `DnsProvider(**kwargs)`: `None` where a required argument is missing
      (a KeyError); the subdomain and the record count have defaults. */
  function NewProvider(kwargs: map<string, Setting>): (r: Option<DnsProvider>)
    ensures r.Some? <==> "domain_name" in kwargs && "api_key" in kwargs && "api_email" in kwargs
    ensures r.Some? ==>
      r.value.domainName == kwargs["domain_name"] && r.value.apiKey == kwargs["api_key"]
      && r.value.apiEmail == kwargs["api_email"]
  {
    if "domain_name" !in kwargs || "api_key" !in kwargs || "api_email" !in kwargs then None
    else
      Some(DnsProvider(
        kwargs["domain_name"],
        if "subdomain_name" in kwargs then kwargs["subdomain_name"] else TextSetting(DefaultSubdomain),
        kwargs["api_key"],
        kwargs["api_email"],
        if "max_records" in kwargs then kwargs["max_records"] else IntSetting(DefaultMaxRecords)))
  }

  /** Without `subdomain_name` and `max_records` the provider manages up to
      five records under `node`; given ones are kept as they are. */
  lemma ProviderDefaults(kwargs: map<string, Setting>)
    requires "domain_name" in kwargs && "api_key" in kwargs && "api_email" in kwargs
    ensures "subdomain_name" !in kwargs ==> NewProvider(kwargs).value.subdomainName == TextSetting("node")
    ensures "max_records" !in kwargs ==> NewProvider(kwargs).value.maxRecords == IntSetting(5)
    ensures "subdomain_name" in kwargs ==> NewProvider(kwargs).value.subdomainName == kwargs["subdomain_name"]
    ensures "max_records" in kwargs ==> NewProvider(kwargs).value.maxRecords == kwargs["max_records"]
  {
  }

  /** `fulldomain_name`: `<subdomain>.<domain>`. */
  function FullDomainName(p: DnsProvider): string
  {
    Show(p.subdomainName) + "." + Show(p.domainName)
  }

  /** The full name splits back at its first dot into the subdomain and the
      domain, when the subdomain has no dot of its own. */
  lemma FullDomainNameParts(p: DnsProvider)
    requires '.' !in Show(p.subdomainName)
    ensures Split(FullDomainName(p), '.') == [Show(p.subdomainName)] + Split(Show(p.domainName), '.')
    ensures Split(FullDomainName(p), '.')[0] == Show(p.subdomainName)
    ensures Join(Split(FullDomainName(p), '.')[1..], ".") == Show(p.domainName)
  {
    var sub := Show(p.subdomainName);
    var rest := Split(Show(p.domainName), '.');
    SplitJoin(Show(p.domainName), '.');
    SplitPartsFree(Show(p.domainName), '.');
    var parts := [sub] + rest;
    assert parts[1..] == rest;
    assert Join(parts, ".") == FullDomainName(p);
    JoinSplit(parts, '.');
  }
}
