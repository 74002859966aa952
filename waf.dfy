/**
 * The firewall side of the handler: a client for the WAF API whose state is
 * the log of requests it has been sent, and the lookup of an IP set by name
 * over the paged listing, followed by the detail fetch for its lock token.
 */
module Waf {
  import opened Wrappers

  /** One entry of a `list_ip_sets` page: the `Name` and `Id` of an IP set. */
  datatype IpSetSummary = IpSetSummary(name: string, id: string)

  /** The arguments of one `update_ip_set` request. */
  datatype UpdateCall = UpdateCall(name: string, scope: string, id: string, lockToken: string, addresses: seq<string>)

  /**
   * The remote firewall as this program sees it. What the service answers is
   * fixed for one invocation (`listing`, `lockTokenOf`); what changes is the log
   * of requests made: the listing pages fetched, the IP sets fetched in detail,
   * and the updates sent.
   */
  class WafClient {
    /** The pages `list_ip_sets` yields, in order, for each scope. */
    const listing: string -> seq<seq<IpSetSummary>>
    /** The `LockToken` `get_ip_set(Name, Scope, Id)` answers with. */
    const lockTokenOf: (string, string, string) -> string

    var pageRequests: seq<(string, nat)>
    var detailRequests: seq<(string, string, string)>
    var updates: seq<UpdateCall>

    constructor (listing: string -> seq<seq<IpSetSummary>>, lockTokenOf: (string, string, string) -> string)
      ensures this.listing == listing && this.lockTokenOf == lockTokenOf
      ensures pageRequests == [] && detailRequests == [] && updates == []
    {
      this.listing := listing;
      this.lockTokenOf := lockTokenOf;
      pageRequests, detailRequests, updates := [], [], [];
    }

    /**
     * The paginator's next page: page `index` of the scope's listing, requested
     * from the service, or None once the listing is exhausted (no request made).
     */
    method NextPage(scope: string, index: nat) returns (page: Option<seq<IpSetSummary>>)
      modifies this`pageRequests
      ensures index < |listing(scope)| ==> page == Some(listing(scope)[index]) && pageRequests == old(pageRequests) + [(scope, index)]
      ensures index >= |listing(scope)| ==> page == None && pageRequests == old(pageRequests)
    {
      if index < |listing(scope)| {
        page := Some(listing(scope)[index]);
        pageRequests := pageRequests + [(scope, index)];
      } else {
        page := None;
      }
    }

    /** `get_ip_set(Name=name, Scope=scope, Id=id)["LockToken"]`. */
    method GetIpSet(name: string, scope: string, id: string) returns (lockToken: string)
      modifies this`detailRequests
      ensures lockToken == lockTokenOf(name, scope, id)
      ensures detailRequests == old(detailRequests) + [(name, scope, id)]
    {
      lockToken := lockTokenOf(name, scope, id);
      detailRequests := detailRequests + [(name, scope, id)];
    }

    /** `update_ip_set(...)`: the request is sent; what the service does with it is not modelled. */
    method UpdateIpSet(call: UpdateCall)
      modifies this`updates
      ensures updates == old(updates) + [call]
    {
      updates := updates + [call];
    }
  }

  // ---------- reference definition of the lookup ----------

  /** The `Id` of the first entry of one page named `name`. */
  function FindInPage(page: seq<IpSetSummary>, name: string): Option<string>
  {
    if page == [] then None
    else if page[0].name == name then Some(page[0].id)
    else FindInPage(page[1..], name)
  }

  /** The `Id` of the first entry named `name`, pages in order and entries in order within a page. */
  function FindIpSetId(pages: seq<seq<IpSetSummary>>, name: string): Option<string>
  {
    if pages == [] then None
    else match FindInPage(pages[0], name)
      case Some(id) => Some(id)
      case None => FindIpSetId(pages[1..], name)
  }

  /** How many pages the lookup fetches: up to the one holding the first match, or all of them. */
  function PagesScanned(pages: seq<seq<IpSetSummary>>, name: string): (n: nat)
    ensures n <= |pages|
  {
    if pages == [] then 0
    else if FindInPage(pages[0], name).Some? then 1
    else 1 + PagesScanned(pages[1..], name)
  }

  /** The page requests `(scope, 0), ..., (scope, n - 1)`. */
  function PageRequests(scope: string, n: nat): (r: seq<(string, nat)>)
    ensures |r| == n && forall k :: 0 <= k < n ==> r[k] == (scope, k)
  {
    if n == 0 then [] else PageRequests(scope, n - 1) + [(scope, n - 1)]
  }

  predicate NoMatchInPage(page: seq<IpSetSummary>, name: string, upTo: nat)
    requires upTo <= |page|
  {
    forall e :: 0 <= e < upTo ==> page[e].name != name
  }

  predicate NoMatchInPages(pages: seq<seq<IpSetSummary>>, name: string, upTo: nat)
    requires upTo <= |pages|
  {
    forall p, e :: 0 <= p < upTo && 0 <= e < |pages[p]| ==> pages[p][e].name != name
  }

  lemma {:induction false} FindInPageAt(page: seq<IpSetSummary>, name: string, e: nat)
    requires e < |page| && page[e].name == name && NoMatchInPage(page, name, e)
    ensures FindInPage(page, name) == Some(page[e].id)
    decreases e
  {
    if e > 0 {
      FindInPageAt(page[1..], name, e - 1);
    }
  }

  lemma {:induction false} FindInPageNone(page: seq<IpSetSummary>, name: string)
    ensures FindInPage(page, name).None? <==> NoMatchInPage(page, name, |page|)
    decreases |page|
  {
    if page != [] {
      FindInPageNone(page[1..], name);
      if NoMatchInPage(page[1..], name, |page| - 1) && page[0].name != name {
        forall e | 0 <= e < |page| ensures page[e].name != name {
          if e > 0 { assert page[e] == page[1..][e - 1]; }
        }
      }
    }
  }

  /**
   * The first match decides: when entry `e` of page `p` is named `name` and no
   * entry before it (earlier pages, then earlier entries of page `p`) is, the
   * lookup returns its `Id` having fetched exactly pages 0 to `p`.
   */
  lemma {:induction false} FirstMatchFound(pages: seq<seq<IpSetSummary>>, name: string, p: nat, e: nat)
    requires p < |pages| && e < |pages[p]| && pages[p][e].name == name
    requires NoMatchInPages(pages, name, p) && NoMatchInPage(pages[p], name, e)
    ensures FindIpSetId(pages, name) == Some(pages[p][e].id)
    ensures PagesScanned(pages, name) == p + 1
    decreases p
  {
    if p == 0 {
      FindInPageAt(pages[0], name, e);
    } else {
      FindInPageNone(pages[0], name);
      assert pages[1..][p - 1] == pages[p];
      FirstMatchFound(pages[1..], name, p - 1, e);
    }
  }

  /** The lookup finds nothing iff no entry on any page is named `name`, and then it fetched every page. */
  lemma {:induction false} NotFoundIffNoMatch(pages: seq<seq<IpSetSummary>>, name: string)
    ensures FindIpSetId(pages, name).None? <==> NoMatchInPages(pages, name, |pages|)
    ensures FindIpSetId(pages, name).None? ==> PagesScanned(pages, name) == |pages|
    decreases |pages|
  {
    if pages != [] {
      FindInPageNone(pages[0], name);
      NotFoundIffNoMatch(pages[1..], name);
      if NoMatchInPages(pages, name, |pages|) {
        assert NoMatchInPage(pages[0], name, |pages[0]|);
        assert NoMatchInPages(pages[1..], name, |pages| - 1) by {
          forall p, e | 0 <= p < |pages| - 1 && 0 <= e < |pages[1..][p]|
            ensures pages[1..][p][e].name != name
          {
            assert pages[1..][p] == pages[p + 1];
          }
        }
      }
    }
  }

  lemma {:induction false} FoundInPageIsFirst(page: seq<IpSetSummary>, name: string)
    requires FindInPage(page, name).Some?
    ensures exists e :: 0 <= e < |page| && page[e].name == name && NoMatchInPage(page, name, e)
                        && page[e].id == FindInPage(page, name).value
    decreases |page|
  {
    if page[0].name == name {
      assert NoMatchInPage(page, name, 0);
    } else {
      FoundInPageIsFirst(page[1..], name);
      var e :| 0 <= e < |page| - 1 && page[1..][e].name == name && NoMatchInPage(page[1..], name, e)
               && page[1..][e].id == FindInPage(page, name).value;
      assert NoMatchInPage(page, name, e + 1) by {
        forall f | 0 <= f < e + 1 ensures page[f].name != name {
          if f > 0 { assert page[f] == page[1..][f - 1]; }
        }
      }
    }
  }

  /** Whatever the lookup returns is the `Id` of the first entry named `name`. */
  lemma {:induction false} FoundIsFirstMatch(pages: seq<seq<IpSetSummary>>, name: string)
    requires FindIpSetId(pages, name).Some?
    ensures exists p, e :: 0 <= p < |pages| && 0 <= e < |pages[p]| && pages[p][e].name == name
                           && NoMatchInPages(pages, name, p) && NoMatchInPage(pages[p], name, e)
                           && pages[p][e].id == FindIpSetId(pages, name).value
    decreases |pages|
  {
    if FindInPage(pages[0], name).Some? {
      FoundInPageIsFirst(pages[0], name);
      var e :| 0 <= e < |pages[0]| && pages[0][e].name == name && NoMatchInPage(pages[0], name, e)
               && pages[0][e].id == FindInPage(pages[0], name).value;
      assert NoMatchInPages(pages, name, 0);
    } else {
      FindInPageNone(pages[0], name);
      FoundIsFirstMatch(pages[1..], name);
      var p, e :| 0 <= p < |pages| - 1 && 0 <= e < |pages[1..][p]| && pages[1..][p][e].name == name
                  && NoMatchInPages(pages[1..], name, p) && NoMatchInPage(pages[1..][p], name, e)
                  && pages[1..][p][e].id == FindIpSetId(pages, name).value;
      assert pages[1..][p] == pages[p + 1];
      assert NoMatchInPages(pages, name, p + 1) by {
        forall q, f | 0 <= q < p + 1 && 0 <= f < |pages[q]| ensures pages[q][f].name != name {
          if q > 0 { assert pages[q] == pages[1..][q - 1]; }
        }
      }
    }
  }

  /**
   * `get_ipset_id_and_token`: walk the pages lazily and the entries of each in
   * order; at the first entry named `name` fetch its lock token and return both;
   * return (None, None) when the pages run out.
   */
  method GetIpSetIdAndToken(waf: WafClient, name: string, scope: string)
    returns (ipSetId: Option<string>, lockToken: Option<string>)
    modifies waf`pageRequests, waf`detailRequests
    ensures ipSetId == FindIpSetId(waf.listing(scope), name)
    ensures lockToken == if ipSetId.Some? then Some(waf.lockTokenOf(name, scope, ipSetId.value)) else None
    ensures waf.pageRequests == old(waf.pageRequests) + PageRequests(scope, PagesScanned(waf.listing(scope), name))
    ensures waf.detailRequests == old(waf.detailRequests) + if ipSetId.Some? then [(name, scope, ipSetId.value)] else []
  {
    ghost var pages := waf.listing(scope);
    var p := 0;
    var page := waf.NextPage(scope, 0);
    while page.Some?
      invariant p <= |pages|
      invariant page.Some? ==> p < |pages| && page.value == pages[p]
      invariant page.None? ==> p == |pages|
      invariant NoMatchInPages(pages, name, p)
      invariant waf.pageRequests == old(waf.pageRequests) + PageRequests(scope, if page.Some? then p + 1 else p)
      invariant waf.detailRequests == old(waf.detailRequests)
      decreases |pages| - p
    {
      var ipSets := page.value;
      for e := 0 to |ipSets|
        invariant NoMatchInPage(ipSets, name, e)
      {
        if ipSets[e].name == name {
          var id := ipSets[e].id;
          var token := waf.GetIpSet(name, scope, id);
          FirstMatchFound(pages, name, p, e);
          return Some(id), Some(token);
        }
      }
      p := p + 1;
      page := waf.NextPage(scope, p);
    }
    NotFoundIffNoMatch(pages, name);
    return None, None;
  }
}
