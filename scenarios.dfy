/**
 * The handler's pipeline on the sample blacklist of test_lambda.py, with the
 * IPv4 validator: the four networks are applied, in file order, and the
 * malformed line is skipped.
 */
module Scenarios {
  import opened Wrappers
  import opened PyText
  import opened Blacklist
  import opened IpNetwork

  const SAMPLE_LINES: seq<string> :=
    ["203.0.113.45/32", "198.51.100.0/28", "invalid-entry", "177.51.100.0/28", "192.51.100.0/23"]

  /** The file content of the test: the sample lines joined with "\n". */
  const SAMPLE_CONTENT: string := Join(SAMPLE_LINES, '\n')

  const EXPECTED: seq<string> :=
    ["203.0.113.45/32", "198.51.100.0/28", "177.51.100.0/28", "192.51.100.0/23"]

  lemma {:induction false} JoinLinesEnds(lines: seq<string>)
    requires lines != [] && forall k :: 0 <= k < |lines| ==> lines[k] != []
    ensures var s := Join(lines, '\n'); s != [] && s[0] == lines[0][0] && s[|s| - 1] == lines[|lines| - 1][|lines[|lines| - 1]| - 1]
    decreases |lines|
  {
    if |lines| > 1 {
      JoinLinesEnds(lines[1..]);
    }
  }

  /** A line with no surrounding whitespace is left as it is by `strip()`. */
  lemma StripKeeps(s: string)
    requires s != [] && !IsSpace(s[0]) && !IsSpace(s[|s| - 1])
    ensures Strip(s) == s
  {
    StripIsTheTrimmedSlice(s, 0, |s|);
    assert s[0..|s|] == s;
  }

  lemma Pow2Small()
    ensures Pow2(0) == 1 && Pow2(4) == 16 && Pow2(9) == 512
  {
  }

  lemma JoinFour(a: string, b: string, c: string, d: string)
    ensures Join([a, b, c, d], '.') == a + "." + b + "." + c + "." + d
  {
    assert [a, b, c, d][1..] == [b, c, d];
    assert [b, c, d][1..] == [c, d];
    assert [c, d][1..] == [d];
    assert Join([c, d], '.') == c + "." + d;
    assert Join([b, c, d], '.') == b + "." + (c + "." + d);
    assert Join([a, b, c, d], '.') == a + "." + (b + "." + (c + "." + d));
  }

  lemma OctetTexts(a: nat, b: nat, c: nat, d: nat)
    ensures OctetStrings([a, b, c, d]) == [NatToString(a), NatToString(b), NatToString(c), NatToString(d)]
  {
  }

  /** The canonical text of a network whose octets and prefix are spelled as given. */
  lemma FormatIsSpelled(net: Network, s0: string, s1: string, s2: string, s3: string, ps: string, text: string)
    requires |net.octets| == 4
    requires OctetStrings(net.octets) == [s0, s1, s2, s3] && NatToString(net.prefixLen) == ps
    requires text == s0 + "." + s1 + "." + s2 + "." + s3 + "/" + ps
    ensures Format(net) == text
  {
    JoinFour(s0, s1, s2, s3);
  }

  lemma CanonOfFormat(net: Network)
    requires IsStrictNetwork(net)
    ensures Canon(Format(net)) == Some(Format(net))
  {
    ParseFormat(net);
  }

  /** A canonical line without surrounding whitespace is accepted as it is. */
  lemma CanonicalLineKept(line: string)
    requires Canon(line) == Some(line)
    requires line != [] && !IsSpace(line[0]) && !IsSpace(line[|line| - 1])
    ensures LineCheck(Canon)(line) == Some(line)
  {
    StripKeeps(line);
  }

  /** A line spelled as the canonical text of a strict network is accepted as it is. */
  lemma AcceptsSpelled(net: Network, s0: string, s1: string, s2: string, s3: string, ps: string, line: string)
    requires IsStrictNetwork(net)
    requires OctetStrings(net.octets) == [s0, s1, s2, s3] && NatToString(net.prefixLen) == ps
    requires line == s0 + "." + s1 + "." + s2 + "." + s3 + "/" + ps
    requires line != [] && !IsSpace(line[0]) && !IsSpace(line[|line| - 1])
    ensures LineCheck(Canon)(line) == Some(line)
  {
    FormatIsSpelled(net, s0, s1, s2, s3, ps, line);
    CanonOfFormat(net);
    CanonicalLineKept(line);
  }

  lemma Line0Digits()
    ensures NatToString(203) == "203" && NatToString(0) == "0" && NatToString(113) == "113"
    ensures NatToString(45) == "45" && NatToString(32) == "32"
  {
  }

  /** A host address with prefix length 32 has no host bits. */
  lemma Line0Strict()
    ensures IsStrictNetwork(Network([203, 0, 113, 45], 32))
  {
    Pow2Small();
    assert AddressValue([203, 0, 113, 45]) == 3405803821;
  }

  lemma Line0Accepted()
    ensures LineCheck(Canon)(SAMPLE_LINES[0]) == Some(SAMPLE_LINES[0])
  {
    Line0Digits();
    Line0Strict();
    OctetTexts(203, 0, 113, 45);
    AcceptsSpelled(Network([203, 0, 113, 45], 32), "203", "0", "113", "45", "32", SAMPLE_LINES[0]);
  }

  lemma Line1Digits()
    ensures NatToString(198) == "198" && NatToString(51) == "51" && NatToString(100) == "100"
    ensures NatToString(0) == "0" && NatToString(28) == "28"
  {
  }

  lemma Line1Strict()
    ensures IsStrictNetwork(Network([198, 51, 100, 0], 28))
  {
    Pow2Small();
    assert AddressValue([198, 51, 100, 0]) == 3325256704;
  }

  lemma Line1Accepted()
    ensures LineCheck(Canon)(SAMPLE_LINES[1]) == Some(SAMPLE_LINES[1])
  {
    Line1Digits();
    Line1Strict();
    OctetTexts(198, 51, 100, 0);
    AcceptsSpelled(Network([198, 51, 100, 0], 28), "198", "51", "100", "0", "28", SAMPLE_LINES[1]);
  }

  lemma Line3Digits()
    ensures NatToString(177) == "177" && NatToString(51) == "51" && NatToString(100) == "100"
    ensures NatToString(0) == "0" && NatToString(28) == "28"
  {
  }

  lemma Line3Strict()
    ensures IsStrictNetwork(Network([177, 51, 100, 0], 28))
  {
    Pow2Small();
    assert AddressValue([177, 51, 100, 0]) == 2972935168;
  }

  lemma Line3Accepted()
    ensures LineCheck(Canon)(SAMPLE_LINES[3]) == Some(SAMPLE_LINES[3])
  {
    Line3Digits();
    Line3Strict();
    OctetTexts(177, 51, 100, 0);
    AcceptsSpelled(Network([177, 51, 100, 0], 28), "177", "51", "100", "0", "28", SAMPLE_LINES[3]);
  }

  lemma Line4Digits()
    ensures NatToString(192) == "192" && NatToString(51) == "51" && NatToString(100) == "100"
    ensures NatToString(0) == "0" && NatToString(23) == "23"
  {
  }

  /** 192.51.100.0/23 has no host bits set (100 is even), so strict parsing accepts it. */
  lemma Line4Strict()
    ensures IsStrictNetwork(Network([192, 51, 100, 0], 23))
  {
    Pow2Small();
    assert AddressValue([192, 51, 100, 0]) == 3224593408;
  }

  lemma Line4Accepted()
    ensures LineCheck(Canon)(SAMPLE_LINES[4]) == Some(SAMPLE_LINES[4])
  {
    Line4Digits();
    Line4Strict();
    OctetTexts(192, 51, 100, 0);
    AcceptsSpelled(Network([192, 51, 100, 0], 23), "192", "51", "100", "0", "23", SAMPLE_LINES[4]);
  }

  /** Text with neither "/" nor "." has no four dotted octets. */
  lemma UndottedNotNetwork(s: string)
    requires '/' !in s && '.' !in s
    ensures Canon(s) == None
  {
    assert Split(s, '/') == [s];
    assert Split(s, '.') == [s];
  }

  lemma Line2NotNetwork()
    ensures Canon("invalid-entry") == None
  {
    var s := "invalid-entry";
    assert forall k :: 0 <= k < |s| ==> s[k] != '/' && s[k] != '.';
    UndottedNotNetwork(s);
  }

  lemma Line2Rejected()
    ensures LineCheck(Canon)(SAMPLE_LINES[2]) == None
  {
    StripKeeps(SAMPLE_LINES[2]);
    Line2NotNetwork();
  }

  lemma HostBitsDigits()
    ensures NatToString(198) == "198" && NatToString(51) == "51" && NatToString(100) == "100"
    ensures NatToString(5) == "5" && NatToString(28) == "28"
  {
  }

  lemma HostBitsSet()
    ensures !HostBitsClear([198, 51, 100, 5], 28)
  {
    Pow2Small();
    assert AddressValue([198, 51, 100, 5]) == 3325256709;
  }

  /**
   * 198.51.100.5/28 names an address, not the network 198.51.100.0/28: the
   * strict validator rejects the line instead of masking it, so it adds nothing.
   */
  lemma HostBitsLineRejected()
    ensures LineCheck(Canon)("198.51.100.5/28") == None
  {
    HostBitsNotNetwork();
    StripKeeps("198.51.100.5/28");
  }

  lemma HostBitsOctetTexts()
    ensures OctetStrings([198, 51, 100, 5]) == ["198", "51", "100", "5"]
  {
    HostBitsDigits();
    OctetTexts(198, 51, 100, 5);
  }

  /** The text of an address whose host bits are set under its prefix is not a network. */
  lemma SpelledHostBitsRejected(net: Network, s0: string, s1: string, s2: string, s3: string, ps: string, text: string)
    requires IsAddress(net.octets) && net.prefixLen <= 32
    requires !HostBitsClear(net.octets, net.prefixLen)
    requires OctetStrings(net.octets) == [s0, s1, s2, s3] && NatToString(net.prefixLen) == ps
    requires text == s0 + "." + s1 + "." + s2 + "." + s3 + "/" + ps
    ensures Canon(text) == None
  {
    FormatIsSpelled(net, s0, s1, s2, s3, ps, text);
    RejectsHostBits(net);
  }

  lemma HostBitsNotNetwork()
    ensures Canon("198.51.100.5/28") == None
  {
    HostBitsDigits();
    HostBitsOctetTexts();
    HostBitsSet();
    SpelledHostBitsRejected(Network([198, 51, 100, 5], 28), "198", "51", "100", "5", "28", "198.51.100.5/28");
  }

  /** Non-empty, boundary-free lines without outer whitespace, joined with "\n", split back into themselves. */
  lemma JoinedLinesRecovered(lines: seq<string>)
    requires 0 < |lines| <= MAX_IPS
    requires forall k :: 0 <= k < |lines| ==> lines[k] != [] && HasNoLineBreak(lines[k])
    requires !IsSpace(lines[0][0]) && !IsSpace(lines[|lines| - 1][|lines[|lines| - 1]| - 1])
    ensures Recent(Lines(Join(lines, '\n'))) == lines
  {
    JoinLinesEnds(lines);
    StripKeeps(Join(lines, '\n'));
    SplitJoinLines(lines);
  }

  /** The content of the test splits back into its five lines, none of them dropped. */
  lemma SampleLines()
    ensures Recent(Lines(SAMPLE_CONTENT)) == SAMPLE_LINES
  {
    forall k | 0 <= k < 5 ensures SAMPLE_LINES[k] != [] && HasNoLineBreak(SAMPLE_LINES[k]) {
    }
    JoinedLinesRecovered(SAMPLE_LINES);
  }

  /** Four lines, each accepted as it is and pairwise different, all come out in order. */
  lemma FourKept(check: string -> Option<string>, w: string, x: string, y: string, z: string)
    requires check(w) == Some(w) && check(x) == Some(x) && check(y) == Some(y) && check(z) == Some(z)
    requires w != x && w != y && w != z && x != y && x != z && y != z
    ensures ValidCidrs(check, [w, x, y, z]) == [w, x, y, z]
  {
    AllAcceptedDistinct(check, [w, x, y, z]);
  }

  /** Dropping the malformed line leaves the output as it is. */
  lemma MalformedLineDrops()
    ensures ValidCidrs(LineCheck(Canon), SAMPLE_LINES) == ValidCidrs(LineCheck(Canon), EXPECTED)
  {
    Line2Rejected();
    var a := SAMPLE_LINES[..2];
    var b := SAMPLE_LINES[3..];
    assert SAMPLE_LINES == a + [SAMPLE_LINES[2]] + b;
    assert a + b == EXPECTED;
    IneffectiveLineDrops(LineCheck(Canon), a, SAMPLE_LINES[2], b);
  }

  /** The four networks are each accepted as they are, and are pairwise different. */
  lemma ExpectedKept()
    ensures ValidCidrs(LineCheck(Canon), EXPECTED) == EXPECTED
  {
    Line0Accepted(); Line1Accepted(); Line3Accepted(); Line4Accepted();
    var w, x, y, z := SAMPLE_LINES[0], SAMPLE_LINES[1], SAMPLE_LINES[3], SAMPLE_LINES[4];
    assert w[0] == '2' && x[0] == '1' && y[0] == '1' && z[0] == '1';
    assert x[1] == '9' && y[1] == '7' && z[1] == '9';
    assert x[2] == '8' && z[2] == '2';
    FourKept(LineCheck(Canon), w, x, y, z);
  }

  /**
   * The addresses the handler sends for the test's file: all four networks, in
   * file order, and not the malformed line.
   */
  lemma SampleAddresses()
    ensures Addresses(Canon, SAMPLE_CONTENT) == EXPECTED
  {
    SampleLines();
    MalformedLineDrops();
    ExpectedKept();
  }
}
