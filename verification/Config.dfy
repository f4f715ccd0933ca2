/** The daemon's configuration records, as parsed from the config file. */
module Config {
  import opened Text

  datatype TailnetConf = TailnetConf(
    name: string,
    suffix: string,
    domain: string,
    cidr: string,
    tun: string,
    hostname: string,
    authKey: string,
    enabledFlag: Option<bool>,
    reportPosture: bool,
    allowAll: bool,
    resources: seq<string>,
    locked: seq<string>,
    autoSelect: seq<string>,
    nativeDNS: bool,
    domainHosts: bool,
    stateDir: string)
  {
    predicate Enabled() {
      enabledFlag.None? || enabledFlag.value
    }

    // The friendly DNS suffix: the configured domain, else a slug of the name.
    function DomainName(): string {
      if domain == "" then Slugify(name) else domain
    }
  }

  datatype Config = Config(
    mtu: int,
    dnsListen: string,
    upstreamDNS: string,
    uiListen: string,
    hostsFile: string,
    stateDir: string,
    tailnets: seq<TailnetConf>)

  // confByName: the first entry whose name matches ignoring case, as an index.
  function IndexByName(tailnets: seq<TailnetConf>, name: string): (i: nat)
    ensures i <= |tailnets|
    ensures i < |tailnets| ==> EqualFold(tailnets[i].name, name)
    ensures forall j :: 0 <= j < i ==> !EqualFold(tailnets[j].name, name)
  {
    if |tailnets| == 0 then 0
    else if EqualFold(tailnets[0].name, name) then 0
    else 1 + IndexByName(tailnets[1..], name)
  }

  // A tailnet name is a state directory component and a URL segment.
  predicate ValidTailnetName(s: string) {
    && 1 <= |s| <= 63
    && s != "." && s != ".."
    && forall c :: c in s ==> c !in {'/', '\\', '\0', '\n', '\r', '\t'}
  }

  predicate IsSlugChar(c: char) {
    'a' <= c <= 'z' || '0' <= c <= '9'
  }

  // Runs of other characters collapse into one hyphen.
  function SlugRuns(s: string, hyphen: bool): string {
    if s == "" then ""
    else if IsSlugChar(s[0]) then [s[0]] + SlugRuns(s[1..], false)
    else if hyphen then SlugRuns(s[1..], true)
    else "-" + SlugRuns(s[1..], true)
  }

  function TrimHyphens(s: string): string {
    if s != "" && s[0] == '-' then TrimHyphens(s[1..])
    else if s != "" && s[|s| - 1] == '-' then TrimHyphens(s[..|s| - 1])
    else s
  }

  function Slugify(s: string): string {
    var slug := TrimHyphens(SlugRuns(Lower(s), false));
    var short := if |slug| > 63 then TrimHyphens(slug[..63]) else slug;
    if short == "" then "tailnet" else short
  }
}
