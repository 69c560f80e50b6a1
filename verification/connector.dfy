/**
 * NXTConnector: the connection URL grammar ("btspp://name", "usb://address", or a bare
 * name), the name-versus-address heuristic, the search over USB then Bluetooth with the
 * name cache in between, and the guard against connecting twice. Drivers, searches and
 * the cache file are oracles whose answers are parameters.
 */
module Connector {
  import opened Results
  import Devices

  datatype ConnectError = AlreadyConnected | IndexOutOfBounds | UnknownProtocol | NullPointer

  /** What a URL asks for: the arguments connectTo(URL) passes on to connectTo(name, addr, protocols). */
  datatype Target = Target(name: Option<string>, addr: Option<string>, protocols: int)

  predicate StartsWith(s: string, p: string)
  {
    |p| <= |s| && s[..|p|] == p
  }

  /** String.indexOf(char): the first index of c, or -1. */
  function IndexOfChar(s: string, c: char): (r: int)
    ensures -1 <= r < |s|
    ensures r >= 0 ==> s[r] == c
    ensures forall k :: 0 <= k < |s| && (r == -1 || k < r) ==> s[k] != c
  {
    if |s| == 0 then -1
    else if s[0] == c then 0
    else var r := IndexOfChar(s[1..], c); if r == -1 then -1 else r + 1
  }

  /** isAddress: a non-null string that starts with "00". */
  predicate IsAddress(s: Option<string>)
  {
    s.Some? && StartsWith(s.value, "00")
  }

  /** The protocol set a URL scheme selects. */
  function SchemeProtocols(scheme: string): (p: int)
    ensures p in {Devices.USB, Devices.BLUETOOTH, Devices.ALL_PROTOCOLS}
  {
    if scheme == "usb" then Devices.USB
    else if scheme == "btspp" then Devices.BLUETOOTH
    else Devices.ALL_PROTOCOLS
  }

  /**
   * connectTo(URL): the text before the first ':' selects the protocols, and the text three
   * characters past it (after "://") is an address if it starts with "00", a name otherwise.
   * With no ':' the whole URL is the name part. A URL that ends within two characters of
   * its colon fails (String.substring throws).
   */
  function ParseUrl(url: string): (r: Result<Target, ConnectError>)
    ensures var c := IndexOfChar(url, ':');
            r.Err? <==> c >= 0 && c + 3 > |url|
    ensures r.Ok? ==>
      var c := IndexOfChar(url, ':');
      var part := if c >= 0 then url[c + 3..] else url;
      r.value.protocols == (if c >= 0 then SchemeProtocols(url[..c]) else Devices.ALL_PROTOCOLS)
      && (IsAddress(Some(part)) ==> r.value.addr == Some(part) && r.value.name == Some("Unknown"))
      && (!IsAddress(Some(part)) ==> r.value.addr == None && r.value.name == Some(part))
  {
    var c := IndexOfChar(url, ':');
    var scheme := if c >= 0 then url[..c] else "";
    var start := if c >= 0 then c + 3 else 0;
    if start > |url| then Err(IndexOutOfBounds)
    else
      var part := url[start..];
      assert c < 0 ==> part == url;
      var protocols := SchemeProtocols(scheme);
      if IsAddress(Some(part)) then Ok(Target(Some("Unknown"), Some(part), protocols))
      else Ok(Target(Some(part), None, protocols))
  }

  /** A URL built from a colon-free scheme and any name parses back to that name (or address) and the scheme's protocols. */
  lemma UrlRoundTrip(scheme: string, part: string)
    requires forall k :: 0 <= k < |scheme| ==> scheme[k] != ':'
    ensures var t := ParseUrl(scheme + "://" + part);
            t.Ok? && t.value.protocols == SchemeProtocols(scheme)
            && (if StartsWith(part, "00") then t.value == Target(Some("Unknown"), Some(part), SchemeProtocols(scheme))
                else t.value == Target(Some(part), None, SchemeProtocols(scheme)))
  {
    var url := scheme + "://" + part;
    assert url[|scheme|] == ':';
    var c := IndexOfChar(url, ':');
    assert c == |scheme| by {
      forall k | 0 <= k < |scheme| ensures url[k] != ':' { assert url[k] == scheme[k]; }
    }
    assert url[..c] == scheme;
    assert url[c + 3..] == part;
  }

  // ---------------------------------------------------------------------------------------
  // search(nxt, addr, protocols)

  function Empty(s: Option<string>): bool
  {
    s.None? || |s.value| == 0
  }

  /** The name given to an NXTInfo made from a supplied address, as the code computes it. */
  function AddressNameAsWritten(nxt: Option<string>): Option<string>
  {
    if Empty(nxt) then nxt else Some("Unknown")
  }

  /** The name given to an NXTInfo made from a supplied address: the requested name, or "Unknown" without one. */
  function AddressName(nxt: Option<string>): (r: Option<string>)
    ensures r.Some? && |r.value| > 0
    ensures !Empty(nxt) ==> r == nxt
  {
    if Empty(nxt) then Some("Unknown") else nxt
  }

  /** The written choice is exactly backwards: it discards every supplied name, and yields null or "" without one. */
  lemma AddressNameInverted(nxt: Option<string>)
    ensures !Empty(nxt) ==> AddressNameAsWritten(nxt) == Some("Unknown") && AddressName(nxt) == nxt
    ensures Empty(nxt) ==> AddressNameAsWritten(nxt) == nxt && AddressName(nxt) == Some("Unknown")
    ensures AddressNameAsWritten(Some("NXT")) != AddressName(Some("NXT"))
  {
  }

  /** The name handed to the transports' searches: none for a missing, empty or "*" name. */
  function SearchParam(nxt: Option<string>): (r: Option<string>)
    ensures r.None? <==> Empty(nxt) || nxt == Some("*")
    ensures r.Some? ==> r == nxt
  {
    if Empty(nxt) || nxt == Some("*") then None else nxt
  }

  /** A transport search's answer: the devices found, or a failed search (an NXTCommException, which leaves none). */
  datatype Answer = Found(infos: seq<Devices.NxtInfo>) | SearchFailed

  function Devs(a: Answer): seq<Devices.NxtInfo>
  {
    if a.Found? then a.infos else []
  }

  /**
   * The oracles search() consults: which drivers load, what their searches answer, the
   * cache file's entries (None when reading it throws), and whether saving gets as far as
   * storing, that is, a cache file is configured and opens for writing.
   */
  datatype Env = Env(usbLoads: bool, usbAnswer: Answer, btLoads: bool, btAnswer: Answer,
                     cache: Option<seq<(string, string)>>, cacheOpens: bool)

  /** What search() did: its result, the searches it ran (protocol and name), and the cache it saves, if any. */
  datatype Outcome = Outcome(infos: seq<Devices.NxtInfo>, queries: seq<(int, Option<string>)>,
                             saved: Option<seq<(string, string)>>)

  /** Whether a protocol set has a protocol's bit. */
  predicate Selects(protocols: int, bit: int)
    requires bit in {Devices.USB, Devices.BLUETOOTH}
  {
    if bit == Devices.USB then protocols % 2 == 1 else (protocols / 2) % 2 == 1
  }

  /** A cache entry "NXT_<addr>" = name that search() offers for the requested name. */
  predicate CacheMatch(e: (string, string), nxt: Option<string>)
  {
    StartsWith(e.0, "NXT_") && IsAddress(Some(e.0[4..]))
    && (SearchParam(nxt).None? || Some(e.1) == nxt)
  }

  /** The devices the cache offers, in the order the cache lists them. */
  function Cached(entries: seq<(string, string)>, nxt: Option<string>): (r: seq<Devices.NxtInfo>)
    ensures forall d :: d in r <==>
      exists e :: e in entries && CacheMatch(e, nxt) && d == Devices.Describe(Devices.BLUETOOTH, Some(e.1), Some(e.0[4..]))
  {
    if |entries| == 0 then []
    else
      var e := entries[0];
      var rest := Cached(entries[1..], nxt);
      assert forall x :: x in entries <==> x == e || x in entries[1..];
      if CacheMatch(e, nxt) then [Devices.Describe(Devices.BLUETOOTH, Some(e.1), Some(e.0[4..]))] + rest
      else rest
  }

  /** Properties.put: replaces the value of an existing key, otherwise adds the entry. */
  function Put(entries: seq<(string, string)>, key: string, value: string): (r: seq<(string, string)>)
    ensures (key, value) in r
    ensures forall e :: e in r ==> e == (key, value) || (e in entries && e.0 != key)
    ensures forall e :: e in entries && e.0 != key ==> e in r
  {
    if |entries| == 0 then [(key, value)]
    else if entries[0].0 == key then Put(entries[1..], key, value)
    else [entries[0]] + Put(entries[1..], key, value)
  }

  /** The cache key of an inquiry result: "NXT_" and the address, "NXT_null" without one. */
  function CacheKey(d: Devices.NxtInfo): string
  {
    "NXT_" + (if d.address.Some? then d.address.value else "null")
  }

  /** The inquiry results added to the cache one by one; a result without a name cannot be stored. */
  function Remember(entries: seq<(string, string)>, found: seq<Devices.NxtInfo>): (r: Result<seq<(string, string)>, ConnectError>)
    ensures r.Ok? ==> forall d :: d in found ==> d.name.Some?
    ensures r.Ok? && |found| > 0 ==> (CacheKey(found[|found| - 1]), found[|found| - 1].name.value) in r.value
    ensures r.Err? <==> exists d :: d in found && d.name.None?
    decreases |found|
  {
    if |found| == 0 then Ok(entries)
    else match found[0].name
      case None => Err(NullPointer)
      case Some(n) =>
        var r := Remember(Put(entries, CacheKey(found[0]), n), found[1..]);
        assert forall d :: d in found <==> d == found[0] || d in found[1..];
        r
  }

  /** The Bluetooth half of search(), reached when USB gave nothing. */
  function SearchBluetooth(nxt: Option<string>, addr: Option<string>, env: Env, queries: seq<(int, Option<string>)>): (r: Result<Outcome, ConnectError>)
    ensures r.Ok? && !env.btLoads ==> r.value == Outcome([], queries, None)
    ensures r.Ok? && env.btLoads && !Empty(addr) ==>
      r.value.infos == [Devices.Describe(Devices.BLUETOOTH, AddressName(nxt), addr)]
    ensures r.Ok? && env.btLoads && Empty(addr) && env.cache.Some? && nxt != Some("*") && |Cached(env.cache.value, nxt)| > 0 ==>
      r.value == Outcome(Cached(env.cache.value, nxt), queries, None)
    ensures r.Ok? ==> r.value.queries == queries || r.value.queries == queries + [(Devices.BLUETOOTH, SearchParam(nxt))]
    ensures r.Ok? && |r.value.queries| > |queries| ==>
      r.value.queries == queries + [(Devices.BLUETOOTH, SearchParam(nxt))] && r.value.infos == Devs(env.btAnswer)
    ensures env.btLoads && Empty(addr) && env.cache.None? ==>
      (r.Err? <==> |Devs(env.btAnswer)| > 0 || env.cacheOpens) && (r.Err? ==> r.error == NullPointer)
    ensures r.Ok? && r.value.saved.Some? ==> env.cacheOpens && env.cache.Some?
  {
    if !env.btLoads then Ok(Outcome([], queries, None))
    else if !Empty(addr) then Ok(Outcome([Devices.Describe(Devices.BLUETOOTH, AddressName(nxt), addr)], queries, None))
    else
      var fromCache := if env.cache.Some? && nxt != Some("*") then Cached(env.cache.value, nxt) else [];
      if |fromCache| > 0 then Ok(Outcome(fromCache, queries, None))
      else
        var found := Devs(env.btAnswer);
        var queries' := queries + [(Devices.BLUETOOTH, SearchParam(nxt))];
        match env.cache
        case None =>
          // the put of the first result, or else storing the null properties, throws
          if |found| > 0 || env.cacheOpens then Err(NullPointer) else Ok(Outcome(found, queries', None))
        case Some(entries) =>
          match Remember(entries, found)
          case Err(e) => Err(e)
          case Ok(saved) => Ok(Outcome(found, queries', if env.cacheOpens then Some(saved) else None))
  }

  /**
   * search(): USB first (a supplied address is taken as is, without searching), then, if
   * that gave nothing, Bluetooth: a supplied address, else the matching cache entries, else
   * an inquiry whose results are added to the cache.
   */
  function Search(nxt: Option<string>, addr: Option<string>, protocols: int, env: Env): (r: Result<Outcome, ConnectError>)
    ensures Selects(protocols, Devices.USB) && !Empty(addr) ==>
      r == Ok(Outcome([Devices.Describe(Devices.USB, AddressName(nxt), addr)], [], None))
    ensures Selects(protocols, Devices.USB) && Empty(addr) && env.usbLoads && |Devs(env.usbAnswer)| > 0 ==>
      r == Ok(Outcome(Devs(env.usbAnswer), [(Devices.USB, SearchParam(nxt))], None))
    ensures !Selects(protocols, Devices.USB) && !Selects(protocols, Devices.BLUETOOTH) ==> r == Ok(Outcome([], [], None))
    ensures r.Ok? ==> forall q :: q in r.value.queries ==> q.1 == SearchParam(nxt)
    ensures r.Ok? ==> forall q :: q in r.value.queries ==>
      (q.0 == Devices.USB && Selects(protocols, Devices.USB)) || (q.0 == Devices.BLUETOOTH && Selects(protocols, Devices.BLUETOOTH))
    ensures r.Ok? ==> |r.value.queries| <= 2 && (|r.value.queries| == 2 ==>
      r.value.queries[0].0 == Devices.USB && r.value.queries[1].0 == Devices.BLUETOOTH)
    ensures (!Selects(protocols, Devices.USB) || (Empty(addr) && (!env.usbLoads || |Devs(env.usbAnswer)| == 0)))
            && Selects(protocols, Devices.BLUETOOTH) && env.btLoads && Empty(addr) && env.cache.None? ==>
      (r.Err? <==> |Devs(env.btAnswer)| > 0 || env.cacheOpens)
  {
    var usb :=
      if !Selects(protocols, Devices.USB) then Outcome([], [], None)
      else if !Empty(addr) then Outcome([Devices.Describe(Devices.USB, AddressName(nxt), addr)], [], None)
      else if env.usbLoads then Outcome(Devs(env.usbAnswer), [(Devices.USB, SearchParam(nxt))], None)
      else Outcome([], [], None);
    if |usb.infos| > 0 then Ok(usb)
    else if !Selects(protocols, Devices.BLUETOOTH) then Ok(usb)
    else SearchBluetooth(nxt, addr, env, usb.queries)
  }

  /**
   * An unreadable cache and an inquiry that finds nothing: storing the null cache throws
   * once the cache file opens for writing; without a cache file to write, nothing is found.
   */
  lemma NullCacheSave(nxt: Option<string>, queries: seq<(int, Option<string>)>)
    ensures SearchBluetooth(nxt, None, Env(false, Found([]), true, Found([]), None, true), queries) == Err(NullPointer)
    ensures SearchBluetooth(nxt, None, Env(false, Found([]), true, SearchFailed, None, false), queries)
            == Ok(Outcome([], queries + [(Devices.BLUETOOTH, SearchParam(nxt))], None))
  {
  }

  /** The protocol bits of the three protocol sets. */
  lemma ProtocolSets()
    ensures Selects(Devices.USB, Devices.USB) && !Selects(Devices.USB, Devices.BLUETOOTH)
    ensures !Selects(Devices.BLUETOOTH, Devices.USB) && Selects(Devices.BLUETOOTH, Devices.BLUETOOTH)
    ensures Selects(Devices.ALL_PROTOCOLS, Devices.USB) && Selects(Devices.ALL_PROTOCOLS, Devices.BLUETOOTH)
  {
  }

  // ---------------------------------------------------------------------------------------
  // connectTo

  /**
   * connectTo(NXTInfo, mode): refused while a connection is held; a protocol other than
   * USB or Bluetooth is an IllegalArgumentException; otherwise whether the transport
   * opens (`opens`, the oracle, covers driver loading and open()).
   */
  function ConnectInfo(connected: bool, info: Devices.NxtInfo, opens: bool): (r: Result<bool, ConnectError>)
    ensures connected ==> r == Err(AlreadyConnected)
    ensures !connected ==> (r.Err? <==> info.protocol !in {Devices.USB, Devices.BLUETOOTH})
    ensures r.Ok? ==> r.value == opens
  {
    if connected then Err(AlreadyConnected)
    else if info.protocol != Devices.USB && info.protocol != Devices.BLUETOOTH then Err(UnknownProtocol)
    else Ok(opens)
  }

  /**
   * The loop of connectTo(nxt, addr, protocols, mode): tries the found devices in order,
   * `opens[i]` telling whether the i-th opens; the index of the one connected, if any.
   */
  function ConnectFirst(infos: seq<Devices.NxtInfo>, opens: seq<bool>, i: nat): (r: Result<Option<nat>, ConnectError>)
    requires |opens| == |infos| && i <= |infos|
    ensures r.Ok? && r.value.Some? ==>
      i <= r.value.value < |infos| && opens[r.value.value]
      && forall k :: i <= k <= r.value.value ==> infos[k].protocol in {Devices.USB, Devices.BLUETOOTH}
    ensures r.Ok? && r.value.Some? ==> forall k :: i <= k < r.value.value ==> !opens[k]
    ensures r.Ok? && r.value.None? ==>
      forall k :: i <= k < |infos| ==> !opens[k] && infos[k].protocol in {Devices.USB, Devices.BLUETOOTH}
    ensures r.Err? ==> r.error == UnknownProtocol && exists k :: i <= k < |infos| && infos[k].protocol !in {Devices.USB, Devices.BLUETOOTH}
    decreases |infos| - i
  {
    if i == |infos| then Ok(None)
    else match ConnectInfo(false, infos[i], opens[i])
      case Err(e) => Err(e)
      case Ok(true) => Ok(Some(i))
      case Ok(false) => ConnectFirst(infos, opens, i + 1)
  }

  /** connectTo(nxt, addr, protocols, mode): refused while connected; otherwise search, then the first device that opens. */
  function ConnectTo(connected: bool, nxt: Option<string>, addr: Option<string>, protocols: int, env: Env,
                     opens: seq<Devices.NxtInfo> -> seq<bool>): (r: Result<Option<Devices.NxtInfo>, ConnectError>)
    ensures connected ==> r == Err(AlreadyConnected)
    ensures r.Ok? && r.value.Some? ==> Search(nxt, addr, protocols, env).Ok? && r.value.value in Search(nxt, addr, protocols, env).value.infos
  {
    if connected then Err(AlreadyConnected)
    else match Search(nxt, addr, protocols, env)
      case Err(e) => Err(e)
      case Ok(o) =>
        var answers := opens(o.infos);
        if |answers| != |o.infos| then Ok(None)
        else match ConnectFirst(o.infos, answers, 0)
          case Err(e) => Err(e)
          case Ok(None) => Ok(None)
          case Ok(Some(k)) => Ok(Some(o.infos[k]))
  }
}
