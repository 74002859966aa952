/**
 * `lambda_handler`: turn the blacklist text into the addresses to apply, look
 * the IP set up by name, and send one full-replacement update when it is found.
 * The text is a parameter (the S3 download and UTF-8 decoding are outside the
 * model), and so is the network validator.
 */
module Handler {
  import opened Wrappers
  import opened PyText
  import opened Blacklist
  import opened Waf
  import IpNetwork

  const IPSET_NAME: string := "Blacklisted-IPs"
  const IPSET_SCOPE: string := "REGIONAL"

  /** Python truthiness of the id the lookup returns: None and "" are both false. */
  predicate Truthy(id: Option<string>) {
    id.Some? && id.value != ""
  }

  /**
   * One invocation. Exactly one `update_ip_set` request is sent, carrying the
   * parsed addresses with the found id and its lock token, iff the lookup
   * returned a truthy id; otherwise the handler returns having sent none.
   */
  method LambdaHandler(waf: WafClient, canon: string -> Option<string>, content: string)
    modifies waf`pageRequests, waf`detailRequests, waf`updates
    ensures var id := FindIpSetId(waf.listing(IPSET_SCOPE), IPSET_NAME);
      waf.updates == old(waf.updates) +
        if Truthy(id)
        then [UpdateCall(IPSET_NAME, IPSET_SCOPE, id.value, waf.lockTokenOf(IPSET_NAME, IPSET_SCOPE, id.value), Addresses(canon, content))]
        else []
    ensures waf.pageRequests == old(waf.pageRequests)
      + PageRequests(IPSET_SCOPE, PagesScanned(waf.listing(IPSET_SCOPE), IPSET_NAME))
    ensures var id := FindIpSetId(waf.listing(IPSET_SCOPE), IPSET_NAME);
      waf.detailRequests == old(waf.detailRequests) + if id.Some? then [(IPSET_NAME, IPSET_SCOPE, id.value)] else []
  {
    var lines := Lines(content);
    var recentIps := Recent(lines);
    var validCidrs := CollectValidCidrs(canon, recentIps);
    assert validCidrs == Addresses(canon, content);
    var ipSetId, lockToken := GetIpSetIdAndToken(waf, IPSET_NAME, IPSET_SCOPE);
    if !Truthy(ipSetId) {
      return;
    }
    var call := UpdateCall(IPSET_NAME, IPSET_SCOPE, ipSetId.value, lockToken.value, validCidrs);
    waf.UpdateIpSet(call);
  }

  /**
   * The guard on the lookup's result: the handler sends an update iff the
   * first IP set named `name`, in page order and then entry order, has a
   * non-empty `Id`. A first match whose `Id` is "" counts as not found.
   */
  lemma UpdateIffFirstMatchHasId(pages: seq<seq<IpSetSummary>>, name: string)
    ensures Truthy(FindIpSetId(pages, name)) <==>
      exists p, e :: 0 <= p < |pages| && 0 <= e < |pages[p]| && pages[p][e].name == name
                     && NoMatchInPages(pages, name, p) && NoMatchInPage(pages[p], name, e)
                     && pages[p][e].id != ""
  {
    if Truthy(FindIpSetId(pages, name)) {
      FoundIsFirstMatch(pages, name);
    }
    if exists p, e :: 0 <= p < |pages| && 0 <= e < |pages[p]| && pages[p][e].name == name
                      && NoMatchInPages(pages, name, p) && NoMatchInPage(pages[p], name, e)
                      && pages[p][e].id != "" {
      var p, e :| 0 <= p < |pages| && 0 <= e < |pages[p]| && pages[p][e].name == name
                  && NoMatchInPages(pages, name, p) && NoMatchInPage(pages[p], name, e)
                  && pages[p][e].id != "";
      FirstMatchFound(pages, name, p, e);
    }
  }

  // ---------- the IPv4 validator in the pipeline ----------

  /** A line holding only whitespace is rejected: it strips to "", which is not a network. */
  lemma BlankLineRejected(line: string)
    requires AllSpace(line)
    ensures LineCheck(IpNetwork.Canon)(line) == None
  {
    StripAllSpace(line);
    IpNetwork.RejectsEmpty();
  }

  /** Every address the handler sends is accepted unchanged by the validator. */
  lemma AddressesRevalidate(content: string, i: nat)
    requires i < |Addresses(IpNetwork.Canon, content)|
    ensures IpNetwork.Canon(Addresses(IpNetwork.Canon, content)[i]) == Some(Addresses(IpNetwork.Canon, content)[i])
  {
    forall s | IpNetwork.Canon(s).Some?
      ensures IpNetwork.Canon(IpNetwork.Canon(s).value) == IpNetwork.Canon(s)
    {
      IpNetwork.CanonIsFixedPoint(s);
    }
    OutputRevalidates(IpNetwork.Canon, Recent(Lines(content)), i);
  }

  /**
   * No network is sent twice, however it was spelled: two different entries
   * of the list never parse to the same network.
   */
  lemma NoNetworkSentTwice(content: string, i: nat, j: nat)
    requires i < j < |Addresses(IpNetwork.Canon, content)|
    ensures IpNetwork.Parse(Addresses(IpNetwork.Canon, content)[i]) != IpNetwork.Parse(Addresses(IpNetwork.Canon, content)[j])
  {
    AddressesRevalidate(content, i);
    AddressesRevalidate(content, j);
    forall s, t | IpNetwork.Parse(s).Some? && IpNetwork.Parse(s) == IpNetwork.Parse(t)
      ensures IpNetwork.Canon(s) == IpNetwork.Canon(t)
    {
      IpNetwork.SameNetworkSameText(s, t);
    }
  }
}
