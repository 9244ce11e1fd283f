/**
 * Live verification: for each selected site, dial its first name on port
 * 443 and compare the certificate the peer presents with the logged row.
 * The TLS dial and the certificate parse are outside the model; their
 * outcome for each dial is an input.
 */
module LiveVerify {
  import opened Wrappers
  import opened Timestamps
  import opened CrtLogs

  /** strings.Split(site, ",")[0]: the site's first name, the text before its first comma. */
  function Host(site: string): (host: string)
    ensures host <= site
    ensures ',' !in host
    ensures |host| == |site| || site[|host|] == ','
    ensures ',' !in site ==> host == site
  {
    if site == [] || site[0] == ',' then []
    else [site[0]] + Host(site[1..])
  }

  /** The dial timeout, ten seconds. */
  const DialTimeout: Duration := 10 * NanosPerSecond

  /**
   * The arguments of one tls.DialWithDialer call: the address, the server
   * name sent for SNI, the timeout, and that chain and host checks are off.
   */
  datatype DialRequest = DialRequest(address: string, serverName: string, timeout: Duration, insecureSkipVerify: bool)

  function DialTo(site: string): DialRequest {
    DialRequest(Host(site) + ":443", Host(site), DialTimeout, true)
  }

  /**
   * What the VerifyPeerCertificate callback finds: no raw certificate, a
   * first certificate that does not parse, or the validity window of the
   * first certificate.
   */
  datatype PeerCert = NoCert | BadCert | Cert(notBefore: Instant, notAfter: Instant)

  /**
   * The outcome of one dial: what the callback saw, if the handshake got that
   * far, and the error the dial returned, if any.
   */
  datatype Probe = Probe(presented: Option<PeerCert>, dialError: Option<string>)

  /**
   * The VerifyPeerCertificate callback on the stored row: a NotAfter mismatch
   * is reported before a NotBefore mismatch; no certificate, an unparseable
   * one or a matching one leaves the row alone.
   */
  function CheckPeer(e: CrtLog, peer: PeerCert): (r: CrtLog)
    ensures r == e.(actual := r.actual)
    ensures peer.Cert? && peer.notAfter != e.notAfterTime ==> r.actual == "NotAfter mismatch"
    ensures peer.Cert? && peer.notAfter == e.notAfterTime && peer.notBefore != e.notBeforeTime ==>
      r.actual == "NotBefore mismatch"
    ensures !peer.Cert? || (peer.notAfter == e.notAfterTime && peer.notBefore == e.notBeforeTime) ==> r == e
  {
    match peer
    case NoCert => e
    case BadCert => e
    case Cert(notBefore, notAfter) =>
      if notAfter != e.notAfterTime then e.(actual := "NotAfter mismatch")
      else if notBefore != e.notBeforeTime then e.(actual := "NotBefore mismatch")
      else e
  }

  /**
   * One site's verification: the callback's annotation, if it ran, then the
   * dial error's text, which overrides it. Only actual can change.
   */
  function ApplyProbe(e: CrtLog, p: Probe): (r: CrtLog)
    ensures r == e.(actual := r.actual)
    ensures p.dialError.Some? ==> r.actual == p.dialError.value
    ensures p.dialError.None? && p.presented.None? ==> r == e
    ensures p.dialError.None? && p.presented.Some? ==> r == CheckPeer(e, p.presented.value)
  {
    var seen := if p.presented.Some? then CheckPeer(e, p.presented.value) else e;
    if p.dialError.Some? then seen.(actual := p.dialError.value) else seen
  }

  /**
   * The body of the verification loop for one site: the callback sets
   * actual on a mismatch, then a dial error overwrites it with its text.
   */
  method VerifySite(entry: CrtLog, outcome: Probe) returns (checked: CrtLog)
    ensures checked == ApplyProbe(entry, outcome)
  {
    checked := entry;
    if outcome.presented.Some? {
      match outcome.presented.value
      case NoCert =>
      case BadCert =>
      case Cert(notBefore, notAfter) =>
        if notAfter != checked.notAfterTime {
          checked := checked.(actual := "NotAfter mismatch");
        } else if notBefore != checked.notBeforeTime {
          checked := checked.(actual := "NotBefore mismatch");
        }
    }
    if outcome.dialError.Some? {
      checked := checked.(actual := outcome.dialError.value);
    }
  }

  /**
   * The verification loop over the site index: the i-th dial goes to the
   * i-th site's host, `network` answers it, and only that site's row is
   * updated, in its actual field.
   */
  method VerifySites(validSites: map<string, CrtLog>, index: seq<string>, network: (nat, DialRequest) -> Probe)
    returns (checked: map<string, CrtLog>)
    requires forall i :: 0 <= i < |index| ==> index[i] in validSites
    requires forall i, j :: 0 <= i < j < |index| ==> index[i] != index[j]
    ensures checked.Keys == validSites.Keys
    ensures forall i :: 0 <= i < |index| ==>
      checked[index[i]] == ApplyProbe(validSites[index[i]], network(i, DialTo(index[i])))
    ensures forall k :: k in validSites && k !in index ==> checked[k] == validSites[k]
  {
    checked := validSites;
    for i := 0 to |index|
      invariant checked.Keys == validSites.Keys
      invariant forall j :: 0 <= j < i ==>
        checked[index[j]] == ApplyProbe(validSites[index[j]], network(j, DialTo(index[j])))
      invariant forall j :: i <= j < |index| ==> checked[index[j]] == validSites[index[j]]
      invariant forall k :: k in validSites && k !in index ==> checked[k] == validSites[k]
    {
      var site := index[i];
      var entry := VerifySite(checked[site], network(i, DialTo(site)));
      checked := checked[site := entry];
    }
  }
}
