/**
 * Turning one email address into one relay: domain extraction, MX lookup,
 * address lookup, country lookup and the selection policy of `getResult`.
 * DNS and the GeoIP database are oracles; every `rand.Intn` is a drawn index.
 */
module Resolver {
  import opened Wrappers
  import opened Text
  import opened Config

  /** What an external lookup gives back: a value, or an error. */
  datatype Lookup<T> = Found(value: T) | Failed

  /** A `net.IP`: the address bytes. */
  type Address = seq<byte>

  /** A `net.MX` record, in the order DNS returns it. */
  datatype Mx = Mx(host: string, pref: nat)

  /** `net.LookupMX`, `net.LookupIP` and the GeoIP country lookup (`IsoCode`). */
  datatype Net = Net(
    lookupMx: string -> Lookup<seq<Mx>>,
    lookupIp: string -> Lookup<seq<Address>>,
    country: Address -> Lookup<string>)

  /**
   * The values of the `rand.Intn` calls of one `getResult`: the default pick,
   * the address pick at MX position `k` for host `h` (`ipIdx(k, h)`), and the
   * target pick for the country found (drawn at most once per call).
   */
  datatype Draws = Draws(defaultIdx: nat, ipIdx: (nat, string) -> nat, countryIdx: string -> nat)

  datatype ResolveError = InvalidEmail(email: string) | NoAddress

  /** `rand.Intn(len(ips))` in `getIp` is below the length of every address list it may see. */
  ghost predicate IpDrawsInRange(net: Net, ipIdx: (nat, string) -> nat) {
    forall k: nat, h: string ::
      net.lookupIp(h).Found? && |net.lookupIp(h).value| > 1 ==> ipIdx(k, h) < |net.lookupIp(h).value|
  }

  /** `rand.Intn(len(value))` in `getResult` is below the length of the country's list. */
  predicate CountryDrawsInRange(table: Table, countryIdx: string -> nat) {
    forall c :: c in table ==> countryIdx(c) < |table[c]|
  }

  /**
   * `getEmailDomain`: the text after the `@` when there is exactly one. Empty
   * local parts and empty domains are accepted.
   */
  function GetEmailDomain(email: string): (r: Result<string, ResolveError>)
    ensures r.Ok? <==> Count(email, '@') == 1
    ensures r.Err? ==> r.error == InvalidEmail(email)
    ensures r.Ok? ==> |r.value| < |email|
    ensures r.Ok? ==>
      var local := email[..|email| - |r.value| - 1];
      && email == local + "@" + r.value
      && '@' !in local && '@' !in r.value
  {
    SplitSpec(email, '@');
    var parts := Split(email, '@');
    if |parts| != 2 then Err(InvalidEmail(email))
    else
      assert parts[1..] == [parts[1]];
      assert Join(parts[1..], '@') == parts[1];
      assert email == parts[0] + "@" + parts[1];
      Ok(parts[1])
  }

  /**
   * `getIp`: an error when the lookup fails or gives no address; the only
   * address when there is one; the drawn one when there are several.
   */
  function GetIp(ips: Lookup<seq<Address>>, draw: nat): (r: Result<Address, ResolveError>)
    requires ips.Found? && |ips.value| > 1 ==> draw < |ips.value|
    ensures r.Ok? <==> ips.Found? && |ips.value| >= 1
    ensures r.Err? ==> r.error == NoAddress
    ensures r.Ok? ==> r.value in ips.value
    ensures ips.Found? && |ips.value| == 1 ==> r == Ok(ips.value[0])
    ensures ips.Found? && |ips.value| > 1 ==> r == Ok(ips.value[draw])
  {
    match ips
    case Failed => Err(NoAddress)
    case Found(addrs) =>
      if |addrs| == 1 then Ok(addrs[0])
      else if |addrs| > 1 then Ok(addrs[draw])
      else Err(NoAddress)
  }

  /** The country found for the MX host at position `k`, or None when that host is skipped. */
  function Probe(net: Net, ipIdx: (nat, string) -> nat, mxs: seq<Mx>, k: nat): Option<string>
    requires k < |mxs| && IpDrawsInRange(net, ipIdx)
  {
    match GetIp(net.lookupIp(mxs[k].host), ipIdx(k, mxs[k].host))
    case Err(_) => None
    case Ok(ip) =>
      match net.country(ip)
      case Failed => None
      case Found(c) => Some(c)
  }

  /** The first position at or after `k` whose host passes both lookups. */
  function FirstHit(net: Net, ipIdx: (nat, string) -> nat, mxs: seq<Mx>, k: nat): (r: Option<nat>)
    requires k <= |mxs| && IpDrawsInRange(net, ipIdx)
    ensures r.Some? ==> k <= r.value < |mxs| && Probe(net, ipIdx, mxs, r.value).Some?
    ensures r.Some? ==> forall j :: k <= j < r.value ==> Probe(net, ipIdx, mxs, j).None?
    ensures r.None? ==> forall j :: k <= j < |mxs| ==> Probe(net, ipIdx, mxs, j).None?
    decreases |mxs| - k
  {
    if k == |mxs| then None
    else if Probe(net, ipIdx, mxs, k).Some? then Some(k)
    else FirstHit(net, ipIdx, mxs, k + 1)
  }

  /** The MX list the walk visits: empty when the email or the MX lookup fails. */
  function Hosts(net: Net, email: string): seq<Mx> {
    match GetEmailDomain(email)
    case Err(_) => []
    case Ok(domain) =>
      match net.lookupMx(domain)
      case Failed => []
      case Found(mxs) => mxs
  }

  /** How many MX hosts are looked up: up to and including the first hit, or all of them. */
  function Consulted(net: Net, ipIdx: (nat, string) -> nat, mxs: seq<Mx>): (n: nat)
    requires IpDrawsInRange(net, ipIdx)
    ensures n <= |mxs|
  {
    match FirstHit(net, ipIdx, mxs, 0)
    case None => |mxs|
    case Some(k) => k + 1
  }

  /** The addresses handed to the country lookup while visiting the first `n` hosts. */
  function GeoQueries(net: Net, ipIdx: (nat, string) -> nat, mxs: seq<Mx>, n: nat): seq<Address>
    requires n <= |mxs| && IpDrawsInRange(net, ipIdx)
  {
    if n == 0 then []
    else
      GeoQueries(net, ipIdx, mxs, n - 1) +
      match GetIp(net.lookupIp(mxs[n - 1].host), ipIdx(n - 1, mxs[n - 1].host))
      case Ok(ip) => [ip]
      case Err(_) => []
  }

  /**
   * The relay `getResult` settles on, given the already drawn `fallback`:
   * the fallback unless the first MX host passing both lookups is in a
   * country that is a key, in which case the drawn target of that country.
   */
  function Resolve(table: Table, fallback: string, email: string, net: Net, draws: Draws): string
    requires IpDrawsInRange(net, draws.ipIdx) && CountryDrawsInRange(table, draws.countryIdx)
  {
    var mxs := Hosts(net, email);
    match FirstHit(net, draws.ipIdx, mxs, 0)
    case None => fallback
    case Some(k) =>
      var c := Probe(net, draws.ipIdx, mxs, k).value;
      if c in table then table[c][draws.countryIdx(c)] else fallback
  }

  /** The four ways the walk ends on the fallback. */
  lemma FallbackCases(table: Table, fallback: string, email: string, net: Net, draws: Draws)
    requires IpDrawsInRange(net, draws.ipIdx) && CountryDrawsInRange(table, draws.countryIdx)
    requires || GetEmailDomain(email).Err?
             || net.lookupMx(GetEmailDomain(email).value).Failed?
             || net.lookupMx(GetEmailDomain(email).value) == Found([])
             || forall k :: 0 <= k < |Hosts(net, email)| ==> Probe(net, draws.ipIdx, Hosts(net, email), k).None?
    ensures Resolve(table, fallback, email, net, draws) == fallback
  {
  }

  /**
   * The first host passing both lookups decides: its country's drawn target
   * when the country is a key, otherwise (an empty ISO code included) the
   * fallback. Hosts after it play no part.
   */
  lemma FirstHitDecides(table: Table, fallback: string, email: string, net: Net, draws: Draws, k: nat)
    requires IpDrawsInRange(net, draws.ipIdx) && CountryDrawsInRange(table, draws.countryIdx)
    requires k < |Hosts(net, email)|
    requires Probe(net, draws.ipIdx, Hosts(net, email), k).Some?
    requires forall j :: 0 <= j < k ==> Probe(net, draws.ipIdx, Hosts(net, email), j).None?
    ensures var c := Probe(net, draws.ipIdx, Hosts(net, email), k).value;
            && (c in table ==> Resolve(table, fallback, email, net, draws) == table[c][draws.countryIdx(c)])
            && (c in table ==> Resolve(table, fallback, email, net, draws) in table[c])
            && (c !in table ==> Resolve(table, fallback, email, net, draws) == fallback)
            && (WellFormed(table) && c == "" ==> Resolve(table, fallback, email, net, draws) == fallback)
    ensures Consulted(net, draws.ipIdx, Hosts(net, email)) == k + 1
  {
  }

  /**
   * A first host whose address lookup fails is skipped; a second host whose
   * address is in a country that is not a key ends the walk on the fallback,
   * with exactly one country lookup made.
   */
  lemma SecondHostUnmapped(table: Table, fallback: string, email: string, net: Net, draws: Draws, a: Address, c: string)
    requires IpDrawsInRange(net, draws.ipIdx) && CountryDrawsInRange(table, draws.countryIdx)
    requires |Hosts(net, email)| >= 2
    requires net.lookupIp(Hosts(net, email)[0].host).Failed?
    requires net.lookupIp(Hosts(net, email)[1].host) == Found([a])
    requires net.country(a) == Found(c) && c !in table
    ensures Resolve(table, fallback, email, net, draws) == fallback
    ensures Consulted(net, draws.ipIdx, Hosts(net, email)) == 2
    ensures GeoQueries(net, draws.ipIdx, Hosts(net, email), 2) == [a]
  {
    var mxs := Hosts(net, email);
    assert Probe(net, draws.ipIdx, mxs, 0).None?;
    assert Probe(net, draws.ipIdx, mxs, 1) == Some(c);
    FirstHitDecides(table, fallback, email, net, draws, 1);
    assert GeoQueries(net, draws.ipIdx, mxs, 1) == [];
    assert GetIp(net.lookupIp(mxs[1].host), draws.ipIdx(1, mxs[1].host)) == Ok(a);
  }

  /** The relay always comes from the table: the fallback's list or the found country's list. */
  lemma ResolveFromTable(table: Table, defaultCountry: string, fallback: string, email: string, net: Net, draws: Draws)
    requires ValidTable(table, defaultCountry) && fallback in table[defaultCountry]
    requires IpDrawsInRange(net, draws.ipIdx) && CountryDrawsInRange(table, draws.countryIdx)
    ensures exists c :: c in table && Resolve(table, fallback, email, net, draws) in table[c]
  {
    var r := Resolve(table, fallback, email, net, draws);
    var mxs := Hosts(net, email);
    match FirstHit(net, draws.ipIdx, mxs, 0)
    case None =>
      assert r in table[defaultCountry];
    case Some(k) =>
      var c := Probe(net, draws.ipIdx, mxs, k).value;
      if c in table {
        assert r in table[c];
      } else {
        assert r in table[defaultCountry];
      }
  }

  /**
   * The loop of `getResult` (lines after the default pick): walk the MX list
   * in order, skip hosts whose address or country lookup fails, stop at the
   * first host where both succeed. Besides the relay it returns the MX records
   * whose addresses were looked up and the addresses whose country was looked up.
   */
  method WalkMx(table: Table, fallback: string, email: string, net: Net, draws: Draws)
    returns (destination: string, ipLookups: seq<Mx>, geoLookups: seq<Address>)
    requires IpDrawsInRange(net, draws.ipIdx) && CountryDrawsInRange(table, draws.countryIdx)
    ensures destination == Resolve(table, fallback, email, net, draws)
    ensures ipLookups == Hosts(net, email)[..Consulted(net, draws.ipIdx, Hosts(net, email))]
    ensures geoLookups == GeoQueries(net, draws.ipIdx, Hosts(net, email), Consulted(net, draws.ipIdx, Hosts(net, email)))
  {
    destination, ipLookups, geoLookups := fallback, [], [];
    var domain := GetEmailDomain(email);
    if domain.Err? {
      WalkStopsEarly(table, fallback, email, net, draws);
      return;
    }
    var mxs := net.lookupMx(domain.value);
    if mxs.Failed? {
      WalkStopsEarly(table, fallback, email, net, draws);
      return;
    }
    var hosts := mxs.value;
    assert hosts == Hosts(net, email);
    var i := 0;
    while i < |hosts|
      invariant 0 <= i <= |hosts|
      invariant FirstHit(net, draws.ipIdx, hosts, i) == FirstHit(net, draws.ipIdx, hosts, 0)
      invariant ipLookups == hosts[..i]
      invariant geoLookups == GeoQueries(net, draws.ipIdx, hosts, i)
      invariant destination == fallback
    {
      var mx := hosts[i];
      WalkStep(net, draws.ipIdx, hosts, i);
      ipLookups := ipLookups + [mx];
      var ip := GetIp(net.lookupIp(mx.host), draws.ipIdx(i, mx.host));
      if ip.Err? {
        i := i + 1;
        continue;
      }
      geoLookups := geoLookups + [ip.value];
      var country := net.country(ip.value);
      if country.Failed? {
        i := i + 1;
        continue;
      }
      if country.value in table {
        destination := table[country.value][draws.countryIdx(country.value)];
      }
      return;
    }
    assert hosts[..|hosts|] == hosts;
  }

  /** A walk with no MX host to visit ends on the fallback having looked nothing up. */
  lemma WalkStopsEarly(table: Table, fallback: string, email: string, net: Net, draws: Draws)
    requires IpDrawsInRange(net, draws.ipIdx) && CountryDrawsInRange(table, draws.countryIdx)
    requires GetEmailDomain(email).Err? || net.lookupMx(GetEmailDomain(email).value).Failed?
    ensures Hosts(net, email) == []
    ensures Resolve(table, fallback, email, net, draws) == fallback
    ensures Consulted(net, draws.ipIdx, Hosts(net, email)) == 0
    ensures GeoQueries(net, draws.ipIdx, Hosts(net, email), 0) == []
  {
  }

  /** Visiting host `i`: it is the hit or the search goes on, and its address joins the country queries. */
  lemma WalkStep(net: Net, ipIdx: (nat, string) -> nat, hosts: seq<Mx>, i: nat)
    requires i < |hosts| && IpDrawsInRange(net, ipIdx)
    ensures hosts[..i + 1] == hosts[..i] + [hosts[i]]
    ensures FirstHit(net, ipIdx, hosts, i) ==
      if Probe(net, ipIdx, hosts, i).Some? then Some(i) else FirstHit(net, ipIdx, hosts, i + 1)
    ensures GeoQueries(net, ipIdx, hosts, i + 1) == GeoQueries(net, ipIdx, hosts, i) +
      match GetIp(net.lookupIp(hosts[i].host), ipIdx(i, hosts[i].host))
      case Ok(ip) => [ip]
      case Err(_) => []
  {
  }

  /** A reply line, or the runtime panic of an out-of-range slice index. */
  datatype Outcome = Answered(response: string) | Panicked

  /** `genPostfixResponse`: the relay wrapped as `200 relay:[d]` and a newline. */
  function GenPostfixResponse(destination: string): (r: string)
    ensures |r| == |destination| + 13
    ensures r[..11] == "200 relay:[" && r[11..|r| - 2] == destination && r[|r| - 2..] == "]\n"
    ensures '\n' !in destination ==> '\n' !in r[..|r| - 1]
  {
    var r := "200 relay:[" + destination + "]\n";
    assert r[..|r| - 1] == "200 relay:[" + destination + "]";
    r
  }

  /** The relay can be read back from its reply line. */
  lemma ResponseInjective(d1: string, d2: string)
    requires GenPostfixResponse(d1) == GenPostfixResponse(d2)
    ensures d1 == d2
  {
    var r := GenPostfixResponse(d1);
    assert d1 == r[11..|r| - 2];
  }

  /**
   * The default pick of `getResult` as written: the index is drawn below
   * `len(defaultTarget)`, the byte length of the country CODE, and indexes that
   * country's list, which panics when the list is shorter.
   */
  function DefaultPick(table: Table, defaultTarget: string, idx: nat): (r: Option<string>)
    requires ValidTable(table, defaultTarget) && idx < ByteLen(defaultTarget)
    ensures r.Some? <==> idx < |table[defaultTarget]|
    ensures r.Some? ==> r.value in table[defaultTarget]
  {
    var targets := table[defaultTarget];
    if idx < |targets| then Some(targets[idx]) else None
  }

  /**
   * The default code of a valid table is 2 bytes long, so the draw range is
   * [0, 2) whatever the list's length; with a single default target the
   * draw 1 is allowed and panics.
   */
  lemma DefaultPickPanics(table: Table, defaultTarget: string)
    requires ValidTable(table, defaultTarget) && |table[defaultTarget]| == 1
    ensures ByteLen(defaultTarget) == 2 && DefaultPick(table, defaultTarget, 1).None?
  {
  }

  /** With two or more default targets no allowed draw panics (targets past the second are never picked). */
  lemma DefaultPickSafe(table: Table, defaultTarget: string, idx: nat)
    requires ValidTable(table, defaultTarget) && idx < ByteLen(defaultTarget)
    requires |table[defaultTarget]| >= 2
    ensures DefaultPick(table, defaultTarget, idx) == Some(table[defaultTarget][idx])
    ensures idx <= 1
  {
  }

  /** The default pick drawn below the length of the default country's list. */
  function CorrectedDefaultPick(table: Table, defaultTarget: string, idx: nat): (r: string)
    requires ValidTable(table, defaultTarget) && idx < |table[defaultTarget]|
    ensures r in table[defaultTarget]
    ensures r == table[defaultTarget][idx]
  {
    table[defaultTarget][idx]
  }

  /** Every target of the default country can be the corrected default pick. */
  lemma CorrectedPickCoversList(table: Table, defaultTarget: string, t: string)
    requires ValidTable(table, defaultTarget) && t in table[defaultTarget]
    ensures exists idx: nat :: idx < |table[defaultTarget]| && CorrectedDefaultPick(table, defaultTarget, idx) == t
  {
    var idx :| 0 <= idx < |table[defaultTarget]| && table[defaultTarget][idx] == t;
    assert CorrectedDefaultPick(table, defaultTarget, idx) == t;
  }

  /**
   * The functional form of `GetResult`: the outcome of `getResult` on `email`
   * with the draws `dr`, for use where a method cannot be called (`Service`).
   */
  ghost function ReplyOf(table: Table, defaultTarget: string, email: string, net: Net, dr: Draws): Outcome
    requires ValidTable(table, defaultTarget) && dr.defaultIdx < ByteLen(defaultTarget)
    requires IpDrawsInRange(net, dr.ipIdx) && CountryDrawsInRange(table, dr.countryIdx)
  {
    match DefaultPick(table, defaultTarget, dr.defaultIdx)
    case None => Panicked
    case Some(fallback) => Answered(GenPostfixResponse(Resolve(table, fallback, email, net, dr)))
  }

  /**
   * `getResult` as written: the default pick (which panics when the drawn
   * index is past the default list), then the MX walk, then the reply line.
   */
  method GetResult(table: Table, defaultTarget: string, email: string, net: Net, draws: Draws)
    returns (out: Outcome)
    requires ValidTable(table, defaultTarget)
    requires draws.defaultIdx < ByteLen(defaultTarget)
    requires IpDrawsInRange(net, draws.ipIdx) && CountryDrawsInRange(table, draws.countryIdx)
    ensures out.Panicked? <==> draws.defaultIdx >= |table[defaultTarget]|
    ensures out.Answered? ==>
      out.response == GenPostfixResponse(Resolve(table, table[defaultTarget][draws.defaultIdx], email, net, draws))
    ensures out == ReplyOf(table, defaultTarget, email, net, draws)
  {
    var pick := DefaultPick(table, defaultTarget, draws.defaultIdx);
    if pick.None? {
      return Panicked;
    }
    var destination, _, _ := WalkMx(table, pick.value, email, net, draws);
    return Answered(GenPostfixResponse(destination));
  }

  /** `getResult` with the default index drawn below the length of the default list. */
  method GetResultCorrected(table: Table, defaultTarget: string, email: string, net: Net, draws: Draws)
    returns (response: string)
    requires ValidTable(table, defaultTarget)
    requires draws.defaultIdx < |table[defaultTarget]|
    requires IpDrawsInRange(net, draws.ipIdx) && CountryDrawsInRange(table, draws.countryIdx)
    ensures response == GenPostfixResponse(Resolve(table, CorrectedDefaultPick(table, defaultTarget, draws.defaultIdx), email, net, draws))
  {
    var destination, _, _ := WalkMx(table, CorrectedDefaultPick(table, defaultTarget, draws.defaultIdx), email, net, draws);
    response := GenPostfixResponse(destination);
  }
}
