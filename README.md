# WAF IP-set updater, modelled in Dafny

The program is an AWS Lambda handler (`lambda-function.py`). An S3 upload of a
blacklist file triggers it. It reads the file and strips and splits the text
into lines. It keeps the most recent `MAX_IPS` (10000) lines and trims each one.
Each trimmed line goes through `ipaddress.ip_network` (strict by default), and
the handler keeps each canonical network text once, in first-occurrence order.
It then looks up the WAFv2 IP set named `Blacklisted-IPs` in scope `REGIONAL`
over the paged `list_ip_sets` listing, fetches that IP set's lock token, and
sends one `update_ip_set` that replaces the address list. If no IP set has that
name, it logs and returns without an update.

The model has seven modules:

- `Wrappers` (`wrappers.dfy`): `Option`.
- `PyText` (`pytext.dfy`): Python's `str.strip()` and `str.splitlines()`. These
  cover the full whitespace and line-boundary sets of `str`, and treat "\r\n"
  as one boundary.
- `IpNetwork` (`ipnetwork.dfy`): the IPv4 part of `ipaddress.ip_network(text)`
  under `strict=True`, and `str()` of its result. It accepts a bare address
  (which becomes `/32`), a decimal prefix length, a dotted netmask or a dotted
  hostmask. Octets are 1-3 digits, at most 255, with no leading zeros. An
  address with host bits set is rejected, not masked.
- `Blacklist` (`blacklist.dfy`): truncation, per-line validation and the dedup
  loop. The loop is a method over a `seq` (`valid_cidrs`) and a `set` (`seen`),
  proved against a reference function. The validator is a parameter
  `canon: string -> Option<string>`. `None` stands for the `ValueError` the
  handler catches. `IpNetwork.Canon` is one instance of it.
- `Waf` (`waf.dfy`): the WAF client as a class that keeps a log of the requests
  it was sent (listing pages, IP-set detail fetches, updates). It also holds
  `get_ipset_id_and_token` as a nested loop with an early return, proved
  against a reference first-match function.
- `Handler` (`handler.dfy`): `lambda_handler` as a driver over the client. It
  sends at most one update, and only when the lookup returned a truthy id.
- `Scenarios` (`scenarios.dfy`): the sample file of `test_lambda.py` run
  through the pipeline with the IPv4 validator.

Behaviours of the code worth noting:

- The code calls `ip_network` with its default `strict=True`. A line such as
  `198.51.100.5/28` is therefore rejected, not masked down to its network.
- When the IP set is not found, the handler logs an error and returns normally.
  It raises nothing.
- An empty or blank trimmed line is not skipped before validation. It reaches
  `ip_network`, which rejects it. The output is the same either way.
- The handler computes no counts. Totals, truncation and invalid lines are
  only logged.

`test_lambda.py:48` asserts that `192.51.100.0/23` is not among the addresses
sent. That text is a valid strict network (the third octet, 100, is even), so
the code sends it. `Scenarios.SampleAddresses` proves that the code's output
for that file contains it. `test_lambda.py:4` also imports `lambda_function`,
which is not the hyphenated file name.

## Model

| member | source | states |
|---|---|---|
| `PyText.SkipSpace` | lambda-function.py:29 | the index reached from `i` skips only whitespace and stops at the first character that is not whitespace, or at the end |
| `PyText.TrimEnd` | lambda-function.py:29 | the index reached moving back from `j` skips only whitespace and stops after the last character that is not whitespace, or at `lo` |
| `PyText.Strip` | lambda-function.py:29 | `strip()` returns nothing longer than its input, and the result neither begins nor ends with whitespace |
| `PyText.StripIsTheTrimmedSlice` | lambda-function.py:29 | `strip()` equals any slice that is cut only at whitespace and does not begin or end with whitespace |
| `PyText.StripTrims` | lambda-function.py:43 | `strip()` returns a slice of the input with only whitespace before and after it |
| `PyText.StripIdempotent` | lambda-function.py:43 | stripping twice gives the same result as stripping once |
| `PyText.StripAllSpace` | lambda-function.py:43 | a line of whitespace only strips to the empty text |
| `PyText.StripEmptyIffAllSpace` | lambda-function.py:29 | `strip()` returns the empty text iff the input is whitespace only |
| `PyText.SplitLines` | lambda-function.py:29 | no returned line contains a line boundary, and the empty text has no lines |
| `PyText.JoinSplitLines` | lambda-function.py:29 | for text that uses only "\n" as a boundary and does not end with one, the lines joined with "\n" give back the text |
| `PyText.SplitJoinLines` | lambda-function.py:29 | lines without boundaries, the last one non-empty, come back unchanged from join-then-split |
| `Blacklist.Lines` | lambda-function.py:29 | `content.strip().splitlines()`: no line contains a line boundary, and there are no lines iff the content is blank |
| `Blacklist.LineCheck` | lambda-function.py:43-45 | the per-line check ignores surrounding whitespace: a line and its stripped form get the same result |
| `Blacklist.Recent` | lambda-function.py:33-37 | `lines[-MAX_IPS:]` is the last min(n, MAX_IPS) lines in their original order, and all lines when n <= MAX_IPS |
| `Blacklist.ValidCidrs` | lambda-function.py:40-52 | the reference result of the loop has no duplicates and is no longer than the retained lines |
| `Blacklist.CollectValidCidrs` | lambda-function.py:40-52 | the loop, whose invariant keeps `seen` equal to the entries of `valid_cidrs`, returns exactly the reference result |
| `Blacklist.Addresses` | lambda-function.py:28-52 | the list sent to the firewall has no duplicates and at most MAX_IPS entries |
| `Blacklist.MemberIffAccepted` | lambda-function.py:42-49 | a text is in the output iff some retained line, trimmed, is accepted with that canonical text |
| `Blacklist.Soundness` | lambda-function.py:45-48 | every output entry is the canonical text of some accepted retained line |
| `Blacklist.Completeness` | lambda-function.py:44-49 | the canonical text of every accepted retained line is in the output |
| `Blacklist.FirstOccurrenceOrder` | lambda-function.py:47-49 | output entries are ordered by first occurrence: every line yielding a later entry comes after a line yielding an earlier one |
| `Blacklist.PrefixStable` | lambda-function.py:47-49 | processing more lines only appends, so no entry is moved, removed or re-added |
| `Blacklist.IneffectiveLineDrops` | lambda-function.py:47-52 | a rejected line, or a line whose text is already in the output, can be removed anywhere without changing the final output, and processing continues after it |
| `Blacklist.AllAcceptedDistinct` | lambda-function.py:42-49 | if all lines are accepted with pairwise different texts, the output is those texts one per line, in order |
| `Blacklist.TruncatedDistinctLines` | lambda-function.py:33-49 | with more than MAX_IPS distinct valid lines, the output has exactly MAX_IPS entries: those of the last MAX_IPS lines, in order |
| `Blacklist.OutputRevalidates` | lambda-function.py:45-48 | if the validator fixes its own canonical texts, every output entry is accepted by it unchanged |
| `Blacklist.CountIsDistinctAccepted` | lambda-function.py:40-54 | `len(valid_cidrs)`, the count the handler logs, equals the number of distinct canonical texts among the accepted retained lines |
| `Blacklist.Bounds` | lambda-function.py:37-52 | `len(valid_cidrs) <= len(recent_ips) <= MAX_IPS`, and no line is dropped when there are at most MAX_IPS |
| `IpNetwork.Parse` | lambda-function.py:45 | an accepted network has four octets of at most 255, a prefix length of at most 32, and no host bits set |
| `IpNetwork.Format` | lambda-function.py:46 | `str(net)` is the dotted address and the decimal prefix length with exactly one "/" between them |
| `IpNetwork.Canon` | lambda-function.py:45-46 | returns nothing exactly when `ip_network` rejects the line, and otherwise a text that parses back to the same network |
| `IpNetwork.SameNetworkSameText` | lambda-function.py:45-47 | every spelling of one network (decimal prefix, with leading zeros, netmask or hostmask) gets the same canonical text, which is what the dedup on `cidr_str` relies on |
| `IpNetwork.ParseFormat` | lambda-function.py:45-46 | round trip: `ip_network(str(net)) == net` for every strict IPv4 network |
| `IpNetwork.CanonIsFixedPoint` | lambda-function.py:45-46 | the canonical text of an accepted line is accepted again and renders to itself |
| `IpNetwork.RejectsHostBits` | lambda-function.py:45 | an address/prefix text with host bits set is rejected (strict mode), not masked |
| `IpNetwork.ParseKeepsAddress` | lambda-function.py:45 | no masking under any prefix spelling: an accepted network has exactly the written address and prefix (32 when none), with no host bits set |
| `IpNetwork.BareAddressIsHostRoute` | lambda-function.py:45-46 | a bare address is accepted as its `/32` network |
| `IpNetwork.RejectsEmpty` | lambda-function.py:43-45 | the empty trimmed line is rejected |
| `Waf.WafClient.NextPage` | lambda-function.py:80-81 | the paginator yields the scope's pages in order, requests each page once, and makes no request once the pages run out |
| `Waf.WafClient.GetIpSet` | lambda-function.py:85-86 | the detail fetch returns the IP set's lock token and is logged |
| `Waf.WafClient.UpdateIpSet` | lambda-function.py:63-69 | the update request is appended to the log of updates |
| `Waf.FirstMatchFound` | lambda-function.py:81-86 | when entry e of page p is the first one named `name`, the lookup returns its id after fetching pages 0..p only |
| `Waf.FoundIsFirstMatch` | lambda-function.py:81-86 | any id the lookup returns belongs to the first entry, in page order and then entry order, whose name is exactly `name` |
| `Waf.NotFoundIffNoMatch` | lambda-function.py:81-87 | the lookup finds nothing iff no entry on any page has that name, and in that case every page was fetched |
| `Waf.GetIpSetIdAndToken` | lambda-function.py:78-87 | returns the first match's id and the token fetched for that id, or (None, None); fetches exactly the pages up to the match and makes exactly one detail fetch iff found |
| `Handler.LambdaHandler` | lambda-function.py:28-69 | exactly one update is sent, with the parsed addresses and the found id and token, iff the lookup returned a truthy id; otherwise none is sent; a found empty `Id` is treated as not found |
| `Handler.UpdateIffFirstMatchHasId` | lambda-function.py:56-69 | the handler's guard holds iff the first IP set with the name, in page order and then entry order, has a non-empty `Id` |
| `Handler.BlankLineRejected` | lambda-function.py:43-52 | a whitespace-only line is rejected by the IPv4 validator and so adds nothing |
| `Handler.AddressesRevalidate` | lambda-function.py:45-48 | with the IPv4 validator, every address sent is a canonical network that the validator accepts unchanged |
| `Handler.NoNetworkSentTwice` | lambda-function.py:40-52 | with the IPv4 validator, no two addresses sent parse to the same network, however the lines spelled it |
| `Scenarios.SampleLines` | test_lambda.py:14-22 | the test's content splits back into its five lines, and none is truncated |
| `Scenarios.SampleAddresses` | test_lambda.py:43-47 | the addresses sent for the test's file are the four networks in file order, without `invalid-entry` |
| `Scenarios.HostBitsLineRejected` | lambda-function.py:43-52 | `198.51.100.5/28` is rejected rather than masked to `198.51.100.0/28` |

## Left out

- The S3 event extraction, `s3.get_object` and UTF-8 decoding (lambda-function.py:22-28). The decoded text is a parameter of `Handler.LambdaHandler`.
- The boto3 client construction and the region setting (lambda-function.py:7-8, 15). The client is an object passed into the handler.
- Logging (lambda-function.py:24, 32-36, 51, 54, 58-59, 71, 74). It has no effect on results.
- Exceptions from S3 or WAF calls and their re-raise (lambda-function.py:73-75). This includes a lock-token conflict on `update_ip_set`. The WAF's compare-and-swap on `LockToken` is enforced remotely, and the code only passes the token through.
- Waf.WafClient.UpdateIpSet: records the request and does not model what the service does with it (success, conflict or atomic replace).
- Waf.WafClient.GetIpSet: returns the token from a fixed function of (name, scope, id). It does not model token changes between invocations or a missing IP set.
- IPv6 and anything beyond the IPv4 forms listed above: `IpNetwork.Canon` rejects them, while `ip_network` accepts IPv6 networks. The `Blacklist` lemmas and the contract of `Handler.LambdaHandler` do not depend on this, because they hold for any validator passed as `canon`. `Handler.BlankLineRejected`, `Handler.AddressesRevalidate` and `Handler.NoNetworkSentTwice` are stated for the IPv4 validator `IpNetwork.Canon`. The real `ip_network` also rejects blank lines, accepts its own canonical texts unchanged and gives one text per network.
- The `IpNetwork` octet rule (no leading zeros) is that of `ipaddress` in Python 3.9.5 and later.
- Characters are Unicode scalar values. Python strings that hold lone surrogates cannot come from strict UTF-8 decoding, so they are not modelled.
