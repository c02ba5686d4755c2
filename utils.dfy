/** moneriote/utils.py: configuration parsing, the ban-list file reader and the
    JSON request helper every network call goes through. */
module Utils {
  import opened Values
  import opened Strings

  // ---------------------------------------------------------------------------
  // parse_ini

  /** A configuration value after `try_cast`. */
  datatype Setting = IntSetting(n: nat) | BoolSetting(b: bool) | TextSetting(s: string)

  /** `try_cast(val)`: digits become an int; `true`/`false` in any case become
      `bool(val)`, which is `True` for every non-empty string; anything else
      stays text. */
  function TryCast(val: string): (r: Setting)
    ensures r.IntSetting? <==> IsDigits(val)
    ensures r.IntSetting? ==> r.n == DigitsValue(val)
    ensures r.BoolSetting? <==> !IsDigits(val) && Lower(val) in ["true", "false"]
    ensures r.BoolSetting? ==> r.b
    ensures r.TextSetting? ==> r.s == val
  {
    if IsDigits(val) then IntSetting(DigitsValue(val))
    else if Lower(val) in ["true", "false"] then BoolSetting(|val| > 0)
    else TextSetting(val)
  }

  /** A number written in decimal reads back as that number. */
  lemma TryCastNumber(n: nat)
    ensures TryCast(ShowNat(n)) == IntSetting(n)
  {
    ShowNatRoundTrip(n);
  }

  /** `false`, however capitalised, is read as `True`. */
  lemma TryCastFalseIsTrue(val: string)
    requires Lower(val) == "false"
    ensures TryCast(val) == BoolSetting(true)
  {
    assert Lower(val)[0] == 'f';
    assert !IsDigit(val[0]);
  }

  /** The configuration file: absent, or its sections as parsed by
      `configparser` (section name to option name to raw text). */
  datatype IniFile = Missing | Parsed(sections: map<string, map<string, string>>)

  datatype Config = Config(monerod: map<string, Setting>, dns: map<string, Setting>,
                           banList: map<string, Setting>)

  /** One section with every value cast; a missing section is `{}`. */
  function CastSection(sections: map<string, map<string, string>>, name: string): (m: map<string, Setting>)
    ensures name !in sections ==> m == map[]
    ensures name in sections ==> m.Keys == sections[name].Keys
    ensures forall k :: k in m ==> name in sections && k in sections[name] && m[k] == TryCast(sections[name][k])
  {
    if name in sections then map k | k in sections[name] :: TryCast(sections[name][k]) else map[]
  }

  /** `parse_ini(fn)`: `None` when the file is missing, where `log_err(...,
      fatal=True)` exits; otherwise the MoneroDaemon, DNS and BanList
      sections. */
  function ParseIni(file: IniFile): (r: Option<Config>)
    ensures r.None? <==> file.Missing?
    ensures r.Some? ==> r.value.monerod == CastSection(file.sections, "MoneroDaemon")
    ensures r.Some? ==> r.value.dns == CastSection(file.sections, "DNS")
    ensures r.Some? ==> r.value.banList == CastSection(file.sections, "BanList")
  {
    match file
    case Missing => None
    case Parsed(sections) =>
      Some(Config(CastSection(sections, "MoneroDaemon"), CastSection(sections, "DNS"),
                  CastSection(sections, "BanList")))
  }

  // ---------------------------------------------------------------------------
  // parse_ban_list

  /** One stripped entry per line of `text`, in order. */
  function StrippedLines(text: string): (r: seq<string>)
    ensures |r| == |Lines(text)|
    ensures forall i :: 0 <= i < |r| ==> r[i] == Strip(Lines(text)[i])
  {
    seq(|Lines(text)|, i requires 0 <= i < |Lines(text)| => Strip(Lines(text)[i]))
  }

  /** `parse_ban_list(path)` over the file's contents (`None`: no such file,
      and `exit` is the fatal `log_err`). */
  method ParseBanList(file: Option<string>) returns (exit: bool, banList: seq<string>)
    ensures exit <==> file.None?
    ensures file.Some? ==> banList == StrippedLines(file.value)
  {
    banList := [];
    if file.None? {
      exit := true;
      return;
    }
    exit := false;
    var lines := Lines(file.value);
    var i := 0;
    while i < |lines|
      invariant 0 <= i <= |lines|
      invariant banList == StrippedLines(file.value)[..i]
    {
      banList := banList + [Strip(lines[i])];
      i := i + 1;
    }
  }

  /** A file written as one entry per line reads back as those entries, blank
      entries included, when each entry is already stripped. */
  lemma BanListRoundTrip(entries: seq<string>)
    requires |entries| >= 1
    requires forall i :: 0 <= i < |entries| ==> '\n' !in entries[i] && Strip(entries[i]) == entries[i]
    ensures StrippedLines(Join(entries, "\n") + "\n") == entries
  {
    LinesOfJoin(entries);
  }

  // ---------------------------------------------------------------------------
  // make_json_request

  /** The HTTP verbs `requests` offers as functions; `make_json_request`
      is only ever called with one of these. */
  const Verbs: seq<string> := ["get", "post", "put", "patch", "delete", "head", "options"]

  /** The user agents `random_user_agent` chooses from. */
  const UserAgents: seq<string> := [
    "Mozilla/5.0 (X11; Ubuntu; Linux i686; rv:24.0) Gecko/20100101 Firefox/24.0",
    "Mozilla/4.0 (compatible; MSIE 9.0; Windows NT 6.1)",
    "Mozilla/5.0 (Windows NT 6.1; WOW64; rv:40.0) Gecko/20100101 Firefox/40.1",
    "Mozilla/5.0 (Windows NT 6.1; WOW64; rv:54.0) Gecko/20100101 Firefox/54.0",
    "Mozilla/5.0 (Windows NT 10.0; Win64; x64) AppleWebKit/537.36 (KHTML, like Gecko) Chrome/60.0.3112.113 Safari/537.36",
    "Mozilla/5.0 (Windows NT 6.1; WOW64; rv:46.0) Gecko/20100101 Firefox/46.0",
    "Mozilla/5.0 (Macintosh; Intel Mac OS X 10_11_6) AppleWebKit/601.7.7 (KHTML, like Gecko) Version/9.1.2 Safari/601.7.7",
    "Mozilla/5.0 (Windows NT 6.3; WOW64; Trident/7.0; rv:11.0) like Gecko"
  ]

  /** `kwargs` after the three `setdefault`s and the `headers` override;
      `agent` is the index `random.choice` picked. */
  function RequestOptions(headers: Value, kwargs: map<string, Value>, agent: nat): (o: map<string, Value>)
    requires agent < |UserAgents|
    ensures o.Keys == kwargs.Keys + {"verify", "timeout", "headers"}
    ensures forall k :: k in kwargs && k != "headers" ==> o[k] == kwargs[k]
    ensures "verify" !in kwargs ==> o["verify"] == Bool(true)
    ensures "timeout" !in kwargs ==> o["timeout"] == Int(5)
    ensures o["headers"] == if Truthy(headers) then headers
                            else if "headers" in kwargs then kwargs["headers"]
                            else Dict(map["User-Agent" := Str(UserAgents[agent])])
  {
    var o := SetDefault(SetDefault(kwargs, "verify", Bool(true)), "timeout", Int(5));
    var o := SetDefault(o, "headers", Dict(map["User-Agent" := Str(UserAgents[agent])]));
    if Truthy(headers) then o["headers" := headers] else o
  }

  /** `d.setdefault(k, v)`: adds `k` only when it is missing. */
  function SetDefault(d: map<string, Value>, k: string, v: Value): (r: map<string, Value>)
    ensures r.Keys == d.Keys + {k}
    ensures forall j :: j in d ==> r[j] == d[j]
    ensures k !in d ==> r[k] == v
  {
    if k in d then d else d[k := v]
  }

  /** What the HTTP call produced: an exception from `requests` (connection
      error, timeout), or a response with its status and its body decoded as
      JSON (`None` when it is not JSON). */
  datatype HttpReply = TransportError | Response(status: int, body: Option<Value>)

  /** `make_json_request` either raises or returns a value (Python `None` is
      `Nil`). */
  datatype RequestOutcome = Raised | Returned(v: Value)

  /** The request went through: no transport error, `raise_for_status` passed
      (it raises for 4xx and 5xx) and the body is JSON. */
  predicate Succeeded(reply: HttpReply)
  {
    reply.Response? && !(400 <= reply.status < 600) && reply.body.Some?
  }

  /** `make_json_request(url, method=verb)` answered by `reply`. */
  function MakeJsonRequest(verb: string, reply: HttpReply): (r: RequestOutcome)
    ensures r.Raised? <==> Lower(verb) !in Verbs
    ensures r.Returned? && Succeeded(reply) ==> r.v == reply.body.value
    ensures r.Returned? && !Succeeded(reply) ==> r.v == Nil
  {
    if Lower(verb) !in Verbs then Raised
    else if Succeeded(reply) then Returned(reply.body.value)
    else Returned(Nil)
  }

  /** Every failure of the request itself comes back as `None`, never as an
      exception, and a `GET` never raises. */
  lemma RequestFailuresReturnNone(reply: HttpReply)
    requires !Succeeded(reply)
    ensures MakeJsonRequest("GET", reply) == Returned(Nil)
    ensures MakeJsonRequest("get", reply) == Returned(Nil)
  {
    assert Lower("GET") == "get";
  }
}
