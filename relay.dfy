/**
 The output relay of `Compiler.compile_file`: each captured stream of the
 interpreter run is stripped of surrounding whitespace, as Python's
 `str.strip()` does, and printed only when something is left; stdout first,
 then stderr. The printed lines are returned in order.
 */
module Relay {

  /** Python's `str.isspace()` for one character: the characters `str.strip()` removes. */
  predicate IsSpace(c: char)
  {
    var n := c as int;
    || n == 0x20 || 0x09 <= n <= 0x0D || 0x1C <= n <= 0x1F
    || n == 0x85 || n == 0xA0 || n == 0x1680 || 0x2000 <= n <= 0x200A
    || n == 0x2028 || n == 0x2029 || n == 0x202F || n == 0x205F || n == 0x3000
  }

  predicate AllSpace(s: string)
  {
    forall k :: 0 <= k < |s| ==> IsSpace(s[k])
  }

  /** The number of whitespace characters `s` starts with. */
  function LeadingSpace(s: string): (i: nat)
    ensures i <= |s|
    ensures forall k :: 0 <= k < i ==> IsSpace(s[k])
    ensures i < |s| ==> !IsSpace(s[i])
  {
    if s != [] && IsSpace(s[0]) then 1 + LeadingSpace(s[1..]) else 0
  }

  /** The length of `s` without the whitespace it ends with. */
  function ContentEnd(s: string): (j: nat)
    ensures j <= |s|
    ensures forall k :: j <= k < |s| ==> IsSpace(s[k])
    ensures 0 < j ==> !IsSpace(s[j - 1])
  {
    if s != [] && IsSpace(s[|s| - 1]) then ContentEnd(s[..|s| - 1]) else |s|
  }

  /** `s.lstrip()`. */
  function StripLeft(s: string): string
  {
    s[LeadingSpace(s)..]
  }

  /** `s.rstrip()`. */
  function StripRight(s: string): string
  {
    s[..ContentEnd(s)]
  }

  /** `s.strip()`. */
  function Strip(s: string): string
  {
    StripRight(StripLeft(s))
  }

  /** `s[i..j]` is what strip keeps: everything before `i` and from `j` on is
      whitespace, and the slice neither starts nor ends with whitespace. */
  ghost predicate IsStripped(s: string, i: int, j: int)
  {
    && 0 <= i <= j <= |s|
    && (forall k :: 0 <= k < i ==> IsSpace(s[k]))
    && (forall k :: j <= k < |s| ==> IsSpace(s[k]))
    && (i < j ==> !IsSpace(s[i]) && !IsSpace(s[j - 1]))
  }

  /** Strip keeps such a slice: the one after the leading whitespace and
      before the trailing whitespace. */
  lemma StripSlice(s: string) returns (i: nat, j: nat)
    ensures IsStripped(s, i, j) && Strip(s) == s[i..j]
  {
    i := LeadingSpace(s);
    var l := s[i..];
    var n := ContentEnd(l);
    j := i + n;
    assert Strip(s) == s[i..j] by {
      assert Strip(s) == l[..n];
    }
    forall k | j <= k < |s| ensures IsSpace(s[k]) {
      assert s[k] == l[k - i];
    }
    if 0 < n {
      assert s[j - 1] == l[n - 1];
    }
  }

  /** The leading whitespace ends at the first non-space character. */
  lemma {:induction false} LeadingSpaceUnique(s: string, i: int)
    requires 0 <= i <= |s|
    requires forall k :: 0 <= k < i ==> IsSpace(s[k])
    requires i < |s| ==> !IsSpace(s[i])
    ensures LeadingSpace(s) == i
  {
    if i > 0 {
      LeadingSpaceUnique(s[1..], i - 1);
    }
  }

  /** The trailing whitespace starts after the last non-space character. */
  lemma {:induction false} ContentEndUnique(s: string, j: int)
    requires 0 <= j <= |s|
    requires forall k :: j <= k < |s| ==> IsSpace(s[k])
    requires 0 < j ==> !IsSpace(s[j - 1])
    ensures ContentEnd(s) == j
  {
    if j < |s| {
      ContentEndUnique(s[..|s| - 1], j);
    }
  }

  /** The slice of IsStripped is unique, so it determines Strip. */
  lemma StripUnique(s: string, i: int, j: int)
    requires IsStripped(s, i, j)
    ensures Strip(s) == s[i..j]
  {
    if i < j {
      LeadingSpaceUnique(s, i);
      var l := s[i..];
      forall k | j - i <= k < |l| ensures IsSpace(l[k]) {
        assert l[k] == s[k + i];
      }
      assert l[j - i - 1] == s[j - 1];
      ContentEndUnique(l, j - i);
      assert l[..j - i] == s[i..j];
    } else {
      assert forall k :: 0 <= k < |s| ==> IsSpace(s[k]) by {
        forall k | 0 <= k < |s| ensures IsSpace(s[k]) {
          if k >= i { assert j <= k; }
        }
      }
      LeadingSpaceUnique(s, |s|);
    }
  }

  /** Strip erases a stream exactly when it is all whitespace. */
  lemma StripEmpty(s: string)
    ensures Strip(s) == [] <==> AllSpace(s)
  {
    var i := LeadingSpace(s);
    if AllSpace(s) {
      LeadingSpaceUnique(s, |s|);
    } else if i < |s| {
      var l := s[i..];
      assert l[0] == s[i];
      assert ContentEnd(l) > 0;
    }
  }

  /** Stripping twice is stripping once. */
  lemma StripIdempotent(s: string)
    ensures Strip(Strip(s)) == Strip(s)
  {
    var r := Strip(s);
    var i, j := StripSlice(s);
    StripUnique(r, 0, |r|);
  }

  /** The lines `compile_file` prints for the captured stdout and stderr texts. */
  function RelayOutput(stdoutText: string, stderrText: string): seq<string>
  {
    var out := Strip(stdoutText);
    var err := Strip(stderrText);
    (if out != [] then [out] else []) + (if err != [] then [err] else [])
  }

  /** One line per stream that is not all whitespace, stdout's before stderr's,
      each the stripped stream, and every printed line non-empty and already stripped. */
  lemma RelayOutputLines(stdoutText: string, stderrText: string)
    ensures |RelayOutput(stdoutText, stderrText)| ==
      (if AllSpace(stdoutText) then 0 else 1) + (if AllSpace(stderrText) then 0 else 1)
    ensures !AllSpace(stdoutText) ==> RelayOutput(stdoutText, stderrText)[0] == Strip(stdoutText)
    ensures !AllSpace(stderrText) ==>
      RelayOutput(stdoutText, stderrText)[|RelayOutput(stdoutText, stderrText)| - 1] == Strip(stderrText)
    ensures forall k :: 0 <= k < |RelayOutput(stdoutText, stderrText)| ==>
      RelayOutput(stdoutText, stderrText)[k] != [] &&
      Strip(RelayOutput(stdoutText, stderrText)[k]) == RelayOutput(stdoutText, stderrText)[k]
  {
    StripEmpty(stdoutText);
    StripEmpty(stderrText);
    StripIdempotent(stdoutText);
    StripIdempotent(stderrText);
  }

  /** A run that prints "hi" and nothing on stderr relays exactly "hi". */
  lemma RelayOutputHi()
    ensures RelayOutput("hi\n", "") == ["hi"]
  {
    var out := "hi\n";
    assert out[..0] == "" && out[2..] == "\n";
    StripUnique(out, 0, 2);
    assert out[0..2] == "hi";
    StripEmpty("");
  }

  lemma StripOut()
    ensures Strip(" out\n") == "out"
  {
    var out := " out\n";
    assert AllSpace(out[..1]) by { assert out[..1] == " "; }
    assert AllSpace(out[4..]) by { assert out[4..] == "\n"; }
    StripUnique(out, 1, 4);
    assert out[1..4] == "out";
  }

  lemma StripErr()
    ensures Strip("err\n") == "err"
  {
    var err := "err\n";
    assert AllSpace(err[3..]) by { assert err[3..] == "\n"; }
    StripUnique(err, 0, 3);
    assert err[0..3] == "err";
  }

  /** Both streams are relayed, each trimmed, stdout first. */
  lemma RelayOutputBoth()
    ensures RelayOutput(" out\n", "err\n") == ["out", "err"]
  {
    StripOut();
    StripErr();
  }
}
