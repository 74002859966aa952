/**
 * The two string operations of Python's `str` that the handler applies to the
 * blacklist text: `strip()` without arguments and `splitlines()`.
 */
module PyText {

  /** Characters that `str.isspace()` accepts, hence the ones `str.strip()` removes. */
  predicate IsSpace(c: char) {
    var u := c as int;
    (0x09 <= u <= 0x0D) || (0x1C <= u <= 0x20) || u == 0x85 || u == 0xA0 || u == 0x1680
    || (0x2000 <= u <= 0x200A) || u == 0x2028 || u == 0x2029 || u == 0x202F
    || u == 0x205F || u == 0x3000
  }

  /** Line boundaries recognised by `str.splitlines()`; "\r\n" counts as one boundary. */
  predicate IsLineBreak(c: char) {
    var u := c as int;
    (0x0A <= u <= 0x0D) || (0x1C <= u <= 0x1E) || u == 0x85 || u == 0x2028 || u == 0x2029
  }

  predicate AllSpace(s: string) {
    forall k :: 0 <= k < |s| ==> IsSpace(s[k])
  }

  predicate HasNoLineBreak(s: string) {
    forall k :: 0 <= k < |s| ==> !IsLineBreak(s[k])
  }

  /** From index `i` on, the index of the first character that is not whitespace, or |s|. */
  function SkipSpace(s: string, i: nat): (j: nat)
    requires i <= |s|
    ensures i <= j <= |s|
    ensures forall k :: i <= k < j ==> IsSpace(s[k])
    ensures j == |s| || !IsSpace(s[j])
    decreases |s| - i
  {
    if i == |s| || !IsSpace(s[i]) then i else SkipSpace(s, i + 1)
  }

  /** Moving back from index `j`, but not below `lo`, the index just after the last character that is not whitespace. */
  function TrimEnd(s: string, lo: nat, j: nat): (e: nat)
    requires lo <= j <= |s|
    ensures lo <= e <= j
    ensures forall k :: e <= k < j ==> IsSpace(s[k])
    ensures e == lo || !IsSpace(s[e - 1])
    decreases j
  {
    if j == lo || !IsSpace(s[j - 1]) then j else TrimEnd(s, lo, j - 1)
  }

  /** `s.strip()`: the text between the leading and the trailing whitespace. */
  function Strip(s: string): (r: string)
    ensures |r| <= |s|
    ensures r == [] || (!IsSpace(r[0]) && !IsSpace(r[|r| - 1]))
  {
    var i := SkipSpace(s, 0);
    s[i..TrimEnd(s, i, |s|)]
  }

  /**
   * `Strip` is the one slice of `s` that is cut only at whitespace and neither
   * starts nor ends with whitespace: any slice with those properties equals it.
   */
  lemma StripIsTheTrimmedSlice(s: string, i: nat, j: nat)
    requires i <= j <= |s|
    requires forall k :: 0 <= k < i ==> IsSpace(s[k])
    requires forall k :: j <= k < |s| ==> IsSpace(s[k])
    requires i == j || (!IsSpace(s[i]) && !IsSpace(s[j - 1]))
    ensures Strip(s) == s[i..j]
  {
    var a := SkipSpace(s, 0);
    if i == j {
      assert a == |s|;
    } else {
      assert a == i;
      assert TrimEnd(s, i, |s|) == j;
    }
  }

  /** What `Strip` returns is a slice of the input with only whitespace around it. */
  lemma StripTrims(s: string)
    ensures var r := Strip(s);
      exists i :: 0 <= i <= |s| - |r| && r == s[i..i + |r|] && AllSpace(s[..i]) && AllSpace(s[i + |r|..])
  {
    var i := SkipSpace(s, 0);
    var e := TrimEnd(s, i, |s|);
    assert Strip(s) == s[i..e];
    assert AllSpace(s[..i]) by {
      forall k | 0 <= k < i ensures IsSpace(s[..i][k]) {
        assert s[..i][k] == s[k];
      }
    }
    assert AllSpace(s[e..]) by {
      forall k | 0 <= k < |s| - e ensures IsSpace(s[e..][k]) {
        assert s[e..][k] == s[e + k];
      }
    }
  }

  /** Stripping twice changes nothing. */
  lemma StripIdempotent(s: string)
    ensures Strip(Strip(s)) == Strip(s)
  {
    var r := Strip(s);
    StripIsTheTrimmedSlice(r, 0, |r|);
    assert r[0..|r|] == r;
  }

  lemma StripIdempotentAll()
    ensures forall s :: Strip(Strip(s)) == Strip(s)
  {
    forall s ensures Strip(Strip(s)) == Strip(s) {
      StripIdempotent(s);
    }
  }

  /** A text of whitespace only strips to nothing. */
  lemma StripAllSpace(s: string)
    requires AllSpace(s)
    ensures Strip(s) == []
  {
    StripIsTheTrimmedSlice(s, 0, 0);
  }

  /** `strip()` leaves nothing exactly when the text is whitespace only. */
  lemma StripEmptyIffAllSpace(s: string)
    ensures Strip(s) == [] <==> AllSpace(s)
  {
    if AllSpace(s) {
      StripAllSpace(s);
    }
    if Strip(s) == [] {
      StripTrims(s);
      var i :| 0 <= i <= |s| && AllSpace(s[..i]) && AllSpace(s[i..]);
      forall k | 0 <= k < |s| ensures IsSpace(s[k]) {
        if k < i { assert s[..i][k] == s[k]; } else { assert s[i..][k - i] == s[k]; }
      }
    }
  }

  /** Length of the first line of `s`: the index of its first line boundary, or |s|. */
  function LineEnd(s: string): (i: nat)
    ensures i <= |s|
    ensures i < |s| ==> IsLineBreak(s[i])
    ensures HasNoLineBreak(s[..i])
  {
    if s == [] || IsLineBreak(s[0]) then 0 else 1 + LineEnd(s[1..])
  }

  /** Width of the boundary at `i`: "\r\n" is one two-character boundary. */
  function BreakWidth(s: string, i: nat): nat
    requires i < |s|
  {
    if s[i] == '\r' && i + 1 < |s| && s[i + 1] == '\n' then 2 else 1
  }

  /**
   * `s.splitlines()`: the lines of `s` without their boundaries; no trailing empty
   * line is produced for a final boundary, and the empty string has no lines.
   */
  function SplitLines(s: string): (lines: seq<string>)
    ensures forall k :: 0 <= k < |lines| ==> HasNoLineBreak(lines[k])
    ensures lines == [] <==> s == []
    decreases |s|
  {
    if s == [] then []
    else
      var i := LineEnd(s);
      if i == |s| then [s]
      else [s[..i]] + SplitLines(s[i + BreakWidth(s, i)..])
  }

  /** `sep.join(parts)` for a one-character separator; "" when there are no parts. */
  function Join(parts: seq<string>, sep: char): string
  {
    if parts == [] then ""
    else if |parts| == 1 then parts[0]
    else parts[0] + [sep] + Join(parts[1..], sep)
  }

  /**
   * Splitting text whose only boundary character is "\n" and which does not end
   * in one gives back lines that join to the same text.
   */
  lemma {:induction false} JoinSplitLines(s: string)
    requires forall k :: 0 <= k < |s| && IsLineBreak(s[k]) ==> s[k] == '\n'
    requires s == [] || s[|s| - 1] != '\n'
    ensures Join(SplitLines(s), '\n') == s
    decreases |s|
  {
    if s != [] {
      var i := LineEnd(s);
      if i < |s| {
        var rest := s[i + 1..];
        assert BreakWidth(s, i) == 1;
        assert rest != [] by { assert s[|s| - 1] != '\n'; assert s[i] == '\n'; }
        forall k | 0 <= k < |rest| && IsLineBreak(rest[k]) ensures rest[k] == '\n' {
          assert rest[k] == s[i + 1 + k];
        }
        assert rest[|rest| - 1] == s[|s| - 1];
        JoinSplitLines(rest);
        var tail := SplitLines(rest);
        assert tail != [];
        assert SplitLines(s) == [s[..i]] + tail;
        assert ([s[..i]] + tail)[1..] == tail;
        assert Join(SplitLines(s), '\n') == s[..i] + ['\n'] + Join(tail, '\n');
        assert s == s[..i] + "\n" + rest;
      }
    }
  }

  /**
   * Lines without boundaries whose last one is not empty survive a join followed
   * by a split unchanged.
   */
  lemma {:induction false} SplitJoinLines(lines: seq<string>)
    requires lines != [] && lines[|lines| - 1] != ""
    requires forall k :: 0 <= k < |lines| ==> HasNoLineBreak(lines[k])
    ensures SplitLines(Join(lines, '\n')) == lines
    decreases |lines|
  {
    var s := Join(lines, '\n');
    if |lines| == 1 {
      LineEndOfUnbroken(s, "");
    } else {
      var t := Join(lines[1..], '\n');
      assert s == lines[0] + ("\n" + t);
      LineEndOfUnbroken(lines[0], "\n" + t);
      assert s[|lines[0]|] == '\n';
      assert BreakWidth(s, |lines[0]|) == 1;
      assert s[|lines[0]| + 1..] == t;
      assert s[..|lines[0]|] == lines[0];
      SplitJoinLines(lines[1..]);
    }
  }

  /** The first line ends where a boundary-free prefix meets a boundary. */
  lemma {:induction false} LineEndOfUnbroken(a: string, b: string)
    requires HasNoLineBreak(a)
    requires b == [] || IsLineBreak(b[0])
    ensures LineEnd(a + b) == |a|
    decreases |a|
  {
    if a != [] {
      assert (a + b)[1..] == a[1..] + b;
      LineEndOfUnbroken(a[1..], b);
    } else {
      assert a + b == b;
    }
  }
}
