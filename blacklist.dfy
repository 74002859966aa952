/**
 * The part of the handler that turns the blacklist text into the addresses to
 * apply: strip and split the text, keep the most recent MAX_IPS lines, trim
 * each, validate it, and keep each canonical network once, first occurrence
 * first. The network validator is a parameter `canon`: it returns the
 * canonical text of the network a trimmed line denotes, or None where the
 * library raises ValueError.
 */
module Blacklist {
  import opened Wrappers
  import opened PyText

  /** At most this many lines, the most recent ones, are looked at. */
  const MAX_IPS: nat := 10000

  function Min(a: nat, b: nat): nat { if a <= b then a else b }

  /** Python's `xs[start:]`, where a negative start counts from the end and is clamped to 0. */
  function SliceFrom<T>(xs: seq<T>, start: int): seq<T>
  {
    var n := |xs|;
    var b := if start < 0 then (if n + start < 0 then 0 else n + start)
             else (if start > n then n else start);
    xs[b..]
  }

  /**
   * `lines[-MAX_IPS:]`: the last min(n, MAX_IPS) lines in their original order;
   * nothing is dropped when there are at most MAX_IPS lines.
   */
  function Recent(lines: seq<string>): (r: seq<string>)
    ensures |r| == Min(|lines|, MAX_IPS)
    ensures lines == lines[..|lines| - |r|] + r
    ensures |lines| <= MAX_IPS ==> r == lines
  {
    SliceFrom(lines, -(MAX_IPS as int))
  }

  /** `content.strip().splitlines()`: no lines at all exactly when the text is blank. */
  function Lines(content: string): (r: seq<string>)
    ensures forall k :: 0 <= k < |r| ==> HasNoLineBreak(r[k])
    ensures r == [] <==> AllSpace(content)
  {
    StripEmptyIffAllSpace(content);
    SplitLines(Strip(content))
  }

  /**
   * What the loop body makes of one retained line: `line.strip()`, then the
   * validator. The reference definition and its properties below hold for any
   * per-line check `check`; the handler uses `LineCheck(canon)`.
   */
  function LineCheck(canon: string -> Option<string>): (r: string -> Option<string>)
    ensures forall line {:trigger r(Strip(line))} :: r(line) == r(Strip(line))
  {
    StripIdempotentAll();
    line => canon(Strip(line))
  }

  predicate Distinct(xs: seq<string>) {
    forall i, j :: 0 <= i < j < |xs| ==> xs[i] != xs[j]
  }

  /** Some line of `lines` is accepted by the check with canonical text `x`. */
  ghost predicate AcceptedIn(check: string -> Option<string>, lines: seq<string>, x: string) {
    exists k :: 0 <= k < |lines| && check(lines[k]) == Some(x)
  }

  /**
   * Reference definition of `valid_cidrs` once the loop has seen `lines`: the
   * result for all but the last line, extended by the last line's canonical text
   * when the check accepts it and the text is not there yet.
   */
  function ValidCidrs(check: string -> Option<string>, lines: seq<string>): (out: seq<string>)
    ensures Distinct(out)
    ensures |out| <= |lines|
    decreases |lines|
  {
    if lines == [] then []
    else
      var prev := ValidCidrs(check, lines[..|lines| - 1]);
      match check(lines[|lines| - 1])
      case None => prev
      case Some(c) => if c in prev then prev else prev + [c]
  }

  /**
   * The loop of the handler: `valid_cidrs` and `seen` grow together, `seen`
   * always holding exactly the entries of `valid_cidrs`; a rejected line is
   * skipped and the loop goes on.
   */
  method CollectValidCidrs(canon: string -> Option<string>, recentIps: seq<string>)
    returns (validCidrs: seq<string>)
    ensures validCidrs == ValidCidrs(LineCheck(canon), recentIps)
  {
    validCidrs := [];
    var seen: set<string> := {};
    for i := 0 to |recentIps|
      invariant validCidrs == ValidCidrs(LineCheck(canon), recentIps[..i])
      invariant seen == set x | x in validCidrs
    {
      assert recentIps[..i + 1][..i] == recentIps[..i];
      var line := Strip(recentIps[i]);
      match canon(line) {
        case None =>
        case Some(cidrStr) =>
          if cidrStr !in seen {
            validCidrs := validCidrs + [cidrStr];
            seen := seen + {cidrStr};
          }
      }
    }
    assert recentIps[..|recentIps|] == recentIps;
  }

  /** The whole text-to-addresses pipeline of the handler. */
  function Addresses(canon: string -> Option<string>, content: string): (addrs: seq<string>)
    ensures Distinct(addrs)
    ensures |addrs| <= MAX_IPS
  {
    ValidCidrs(LineCheck(canon), Recent(Lines(content)))
  }

  // ---------- properties of the reference definition ----------

  /** Soundness and completeness: a text is in the output iff some line is accepted with that text. */
  lemma {:induction false} MemberIffAccepted(check: string -> Option<string>, lines: seq<string>, x: string)
    ensures x in ValidCidrs(check, lines) <==> AcceptedIn(check, lines, x)
    decreases |lines|
  {
    if lines != [] {
      var init := lines[..|lines| - 1];
      MemberIffAccepted(check, init, x);
      if AcceptedIn(check, init, x) {
        var k :| 0 <= k < |init| && check(init[k]) == Some(x);
        assert lines[k] == init[k];
      }
      if AcceptedIn(check, lines, x) && !AcceptedIn(check, init, x) {
        var k :| 0 <= k < |lines| && check(lines[k]) == Some(x);
      }
    }
  }

  /** Soundness: every output entry is the canonical text of an accepted retained line. */
  lemma Soundness(check: string -> Option<string>, lines: seq<string>, i: nat)
    requires i < |ValidCidrs(check, lines)|
    ensures exists k :: 0 <= k < |lines| && check(lines[k]) == Some(ValidCidrs(check, lines)[i])
  {
    MemberIffAccepted(check, lines, ValidCidrs(check, lines)[i]);
  }

  /** Completeness: the canonical text of every accepted retained line is in the output. */
  lemma Completeness(check: string -> Option<string>, lines: seq<string>, k: nat)
    requires k < |lines| && check(lines[k]).Some?
    ensures check(lines[k]).value in ValidCidrs(check, lines)
  {
    MemberIffAccepted(check, lines, check(lines[k]).value);
  }

  /**
   * Order of first occurrence: for entries i < j of the output, every line that
   * yields entry j comes after some line that yields entry i.
   */
  lemma {:induction false} FirstOccurrenceOrder(check: string -> Option<string>, lines: seq<string>, i: nat, j: nat, q: nat)
    requires i < j < |ValidCidrs(check, lines)|
    requires q < |lines| && check(lines[q]) == Some(ValidCidrs(check, lines)[j])
    ensures exists p :: 0 <= p < q && check(lines[p]) == Some(ValidCidrs(check, lines)[i])
    decreases |lines|
  {
    var out := ValidCidrs(check, lines);
    var init := lines[..|lines| - 1];
    var prev := ValidCidrs(check, init);
    assert prev <= out;
    if q < |init| && j < |prev| {
      assert init[q] == lines[q];
      FirstOccurrenceOrder(check, init, i, j, q);
      var p :| 0 <= p < q && check(init[p]) == Some(prev[i]);
      assert lines[p] == init[p];
    } else {
      if q < |init| {
        // then entry j is new at the last line, yet an earlier line yields it
        assert init[q] == lines[q];
        MemberIffAccepted(check, init, out[j]);
        assert false;
      }
      MemberIffAccepted(check, init, prev[i]);
      var p :| 0 <= p < |init| && check(init[p]) == Some(prev[i]);
      assert lines[p] == init[p];
    }
  }

  /**
   * The output only grows at its end as more lines are processed: a later line
   * never moves, removes or re-adds an entry.
   */
  lemma {:induction false} PrefixStable(check: string -> Option<string>, a: seq<string>, b: seq<string>)
    ensures ValidCidrs(check, a) <= ValidCidrs(check, a + b)
    decreases |b|
  {
    if b != [] {
      var ab := a + b;
      assert ab[..|ab| - 1] == a + b[..|b| - 1];
      PrefixStable(check, a, b[..|b| - 1]);
    } else {
      assert a + b == a;
    }
  }

  /**
   * A line the check rejects, or whose canonical text is already in the output,
   * can be removed without changing the final output: it adds nothing and does
   * not stop the processing of the lines after it.
   */
  lemma {:induction false} IneffectiveLineDrops(check: string -> Option<string>, a: seq<string>, l: string, b: seq<string>)
    requires check(l).None? || check(l).value in ValidCidrs(check, a)
    ensures ValidCidrs(check, a + [l] + b) == ValidCidrs(check, a + b)
    decreases |b|
  {
    if b == [] {
      assert (a + [l] + b)[..|a|] == a;
      assert a + b == a;
    } else {
      var x := a + [l] + b;
      var y := a + b;
      assert x[..|x| - 1] == a + [l] + b[..|b| - 1];
      assert y[..|y| - 1] == a + b[..|b| - 1];
      assert x[|x| - 1] == y[|y| - 1];
      IneffectiveLineDrops(check, a, l, b[..|b| - 1]);
    }
  }

  /** The distinct canonical texts of the accepted lines. */
  ghost function AcceptedTexts(check: string -> Option<string>, lines: seq<string>): set<string>
  {
    set k | 0 <= k < |lines| && check(lines[k]).Some? :: check(lines[k]).value
  }

  /** A list without repeats has as many elements as its set of entries. */
  lemma {:induction false} DistinctCard(xs: seq<string>)
    requires Distinct(xs)
    ensures |set x | x in xs| == |xs|
    decreases |xs|
  {
    if xs != [] {
      var init := xs[..|xs| - 1];
      var last := xs[|xs| - 1];
      DistinctCard(init);
      assert (set x | x in xs) == (set x | x in init) + {last};
      assert last !in (set x | x in init);
    }
  }

  /**
   * `len(valid_cidrs)`, the count the handler reports, is the number of
   * distinct canonical texts among the accepted retained lines.
   */
  lemma CountIsDistinctAccepted(check: string -> Option<string>, lines: seq<string>)
    ensures |ValidCidrs(check, lines)| == |AcceptedTexts(check, lines)|
  {
    var out := ValidCidrs(check, lines);
    forall x ensures x in out <==> x in AcceptedTexts(check, lines) {
      MemberIffAccepted(check, lines, x);
    }
    assert (set x | x in out) == AcceptedTexts(check, lines);
    DistinctCard(out);
  }

  /**
   * When every retained line is accepted and their canonical texts are pairwise
   * different, the output is exactly those texts, one per line, in line order.
   */
  lemma {:induction false} AllAcceptedDistinct(check: string -> Option<string>, lines: seq<string>)
    requires forall k :: 0 <= k < |lines| ==> check(lines[k]).Some?
    requires forall k, m :: 0 <= k < m < |lines| ==> check(lines[k]) != check(lines[m])
    ensures |ValidCidrs(check, lines)| == |lines|
    ensures forall k :: 0 <= k < |lines| ==> ValidCidrs(check, lines)[k] == check(lines[k]).value
    decreases |lines|
  {
    if lines != [] {
      var init := lines[..|lines| - 1];
      AllAcceptedDistinct(check, init);
    }
  }

  /**
   * More than MAX_IPS lines, all accepted with pairwise different canonical
   * texts: exactly MAX_IPS addresses come out, those of the last MAX_IPS lines,
   * in line order.
   */
  lemma TruncatedDistinctLines(check: string -> Option<string>, lines: seq<string>)
    requires |lines| > MAX_IPS
    requires forall k :: 0 <= k < |lines| ==> check(lines[k]).Some?
    requires forall k, m :: 0 <= k < m < |lines| ==> check(lines[k]) != check(lines[m])
    ensures |ValidCidrs(check, Recent(lines))| == MAX_IPS
    ensures forall k :: 0 <= k < MAX_IPS ==>
      ValidCidrs(check, Recent(lines))[k] == check(lines[|lines| - MAX_IPS + k]).value
  {
    var r := Recent(lines);
    var d := |lines| - MAX_IPS;
    assert forall k :: 0 <= k < |r| ==> r[k] == lines[d + k];
    assert forall k, m :: 0 <= k < m < |r| ==> check(r[k]) != check(r[m]) by {
      forall k, m | 0 <= k < m < |r| ensures check(r[k]) != check(r[m]) {
        assert r[k] == lines[d + k] && r[m] == lines[d + m];
      }
    }
    AllAcceptedDistinct(check, r);
  }

  /**
   * The canonical text of a network is itself accepted and unchanged by the
   * validator (true of `ipaddress`: `ip_network(str(net)) == net`).
   */
  ghost predicate FixesCanonicalText(canon: string -> Option<string>) {
    forall s :: canon(s).Some? ==> canon(canon(s).value) == canon(s)
  }

  /**
   * With such a validator, every address sent to the firewall is one the
   * validator accepts as it stands.
   */
  lemma OutputRevalidates(canon: string -> Option<string>, lines: seq<string>, i: nat)
    requires FixesCanonicalText(canon)
    requires i < |ValidCidrs(LineCheck(canon), lines)|
    ensures canon(ValidCidrs(LineCheck(canon), lines)[i]) == Some(ValidCidrs(LineCheck(canon), lines)[i])
  {
    Soundness(LineCheck(canon), lines, i);
    var k :| 0 <= k < |lines| && LineCheck(canon)(lines[k]) == Some(ValidCidrs(LineCheck(canon), lines)[i]);
    assert canon(Strip(lines[k])).Some?;
  }

  /** Bounds: `len(valid_cidrs) <= len(recent_ips) <= MAX_IPS`, and `recent_ips` is all lines when few enough. */
  lemma Bounds(canon: string -> Option<string>, content: string)
    ensures |Addresses(canon, content)| <= |Recent(Lines(content))| <= MAX_IPS
    ensures |Lines(content)| <= MAX_IPS ==> Recent(Lines(content)) == Lines(content)
  {
  }
}
