/**
 The second normalisation step of Model.__preprocess_doc: the substitution of
 the pattern `\[\d+\]` by " ". Python's `re.sub` scans left to right; where a
 reference marker ('[', one or more digits, ']') starts, it is replaced by a
 single space and the scan resumes after its ']'; any other character is copied.
 Since ']' is not a digit, the greedy `\d+` never backtracks and the match at
 each position is determined by the characters there.
 */
module RefMarkers {

  /** What `\d` matches, restricted to the ASCII digits. */
  predicate IsDigit(c: char)
  {
    '0' <= c <= '9'
  }

  /** t is exactly one reference marker such as "[12]". */
  predicate IsMarker(t: string)
  {
    |t| >= 3 && t[0] == '[' && t[|t| - 1] == ']'
    && forall i :: 1 <= i < |t| - 1 ==> IsDigit(t[i])
  }

  /** No substring of s is a reference marker. */
  predicate MarkerFree(s: string)
  {
    forall i, j :: 0 <= i < j <= |s| ==> !IsMarker(s[i..j])
  }

  /** Length of the run of digits at the front of s: what the greedy `\d+` consumes there. */
  function DigitRun(s: string): (n: nat)
    ensures n <= |s|
    ensures forall i :: 0 <= i < n ==> IsDigit(s[i])
    ensures n < |s| ==> !IsDigit(s[n])
  {
    if s != [] && IsDigit(s[0]) then 1 + DigitRun(s[1..]) else 0
  }

  /**
   Length of the reference marker that the pattern matches at the front of s,
   or 0 when it matches nothing there.
   */
  function MarkerLength(s: string): (n: nat)
    ensures n <= |s|
    ensures n > 0 ==> IsMarker(s[..n])
  {
    if |s| >= 3 && s[0] == '[' then
      var d := DigitRun(s[1..]);
      if 1 <= d && d + 1 < |s| && s[d + 1] == ']' then d + 2 else 0
    else 0
  }

  /**
   Every prefix of s that is a marker is the match: the pattern misses no
   marker that starts at the scan position, and the match is unique.
   */
  lemma MarkerLengthUnique(s: string, m: nat)
    requires 0 < m <= |s|
    ensures IsMarker(s[..m]) ==> MarkerLength(s) == m
  {
  }

  /** `re.sub(r'\[\d+\]', ' ', s)`: every reference marker becomes one space. */
  function StripRefMarkers(s: string): (r: string)
    ensures |r| <= |s|
    decreases |s|
  {
    if s == [] then []
    else
      var n := MarkerLength(s);
      if n > 0 then " " + StripRefMarkers(s[n..])
      else [s[0]] + StripRefMarkers(s[1..])
  }

  /** A marker at the front is replaced by one space, whatever follows it. */
  lemma StripMarkerPrefix(m: string, t: string)
    requires IsMarker(m)
    ensures StripRefMarkers(m + t) == " " + StripRefMarkers(t)
  {
    var s := m + t;
    assert s[..|m|] == m;
    MarkerLengthUnique(s, |m|);
    assert s[|m|..] == t;
  }

  /** When the result does not start with the inserted space, the scan copied the first character. */
  lemma StripCopiedFirst(t: string)
    requires |StripRefMarkers(t)| > 0 && StripRefMarkers(t)[0] != ' '
    ensures t != [] && MarkerLength(t) == 0
    ensures StripRefMarkers(t) == [t[0]] + StripRefMarkers(t[1..])
  {
  }

  /** Dropping the first character of a text keeps a space-free prefix space-free. */
  lemma ShiftNoSpace(c: char, tail: string, k: nat)
    requires 0 < k <= 1 + |tail|
    requires forall i :: 0 <= i < k ==> ([c] + tail)[i] != ' '
    ensures forall i :: 0 <= i < k - 1 ==> tail[i] != ' '
  {
    forall i | 0 <= i < k - 1
      ensures tail[i] != ' '
    {
      assert tail[i] == ([c] + tail)[i + 1];
    }
  }

  /** Two texts that agree after their first character agree on the prefix one longer. */
  lemma ConsPrefix(t: string, tail: string, k: nat)
    requires 0 < k <= |t| && k - 1 <= |tail|
    requires t[1..][..k - 1] == tail[..k - 1]
    ensures t[..k] == ([t[0]] + tail)[..k]
  {
    assert t[..k] == [t[0]] + t[1..][..k - 1];
    assert ([t[0]] + tail)[..k] == [t[0]] + tail[..k - 1];
  }

  /**
   Where the result has no space, nothing was replaced: the first k characters
   of the result are the first k characters of the input.
   */
  lemma {:induction false} StripVerbatimPrefix(t: string, k: nat)
    requires k <= |StripRefMarkers(t)|
    requires forall i :: 0 <= i < k ==> StripRefMarkers(t)[i] != ' '
    ensures k <= |t| && t[..k] == StripRefMarkers(t)[..k]
  {
    if k > 0 {
      StripCopiedFirst(t);
      var tail := StripRefMarkers(t[1..]);
      ShiftNoSpace(t[0], tail, k);
      StripVerbatimPrefix(t[1..], k - 1);
      ConsPrefix(t, tail, k);
    }
  }

  /** After the substitution no reference marker is left anywhere in the text. */
  lemma {:induction false} StripLeavesNoMarker(s: string)
    ensures MarkerFree(StripRefMarkers(s))
  {
    if s != [] {
      var n := MarkerLength(s);
      var rest := if n > 0 then s[n..] else s[1..];
      var head := if n > 0 then ' ' else s[0];
      var tail := StripRefMarkers(rest);
      StripLeavesNoMarker(rest);
      assert StripRefMarkers(s) == [head] + tail;
      forall i, j | 0 <= i < j <= 1 + |tail|
        ensures !IsMarker(([head] + tail)[i..j])
      {
        if i > 0 {
          TailMarkerFree(head, tail, i, j);
        } else if n == 0 {
          CopiedHeadMarker(s[0], rest, j);
          assert ([s[0]] + rest) == s;
          if j <= |s| {
            MarkerLengthUnique(s, j);
          }
        }
      }
    }
  }

  /** A marker-free text stays marker-free past a new first character. */
  lemma TailMarkerFree(c: char, tail: string, i: nat, j: nat)
    requires MarkerFree(tail)
    requires 0 < i < j <= 1 + |tail|
    ensures !IsMarker(([c] + tail)[i..j])
  {
    assert ([c] + tail)[i..j] == tail[i - 1..j - 1];
  }

  /**
   A marker at the front of a result whose first character was copied is a
   marker at the front of the input too: the scan copies the characters of a
   marker one by one only if no marker starts at its '['.
   */
  lemma CopiedHeadMarker(c: char, t: string, j: nat)
    requires 0 < j <= 1 + |StripRefMarkers(t)|
    ensures IsMarker(([c] + StripRefMarkers(t))[..j]) ==> j <= 1 + |t| && IsMarker(([c] + t)[..j])
  {
    var tail := StripRefMarkers(t);
    var m := ([c] + tail)[..j];
    if IsMarker(m) {
      MarkerNoSpace(m);
      ShiftNoSpace(c, tail, j);
      StripVerbatimPrefix(t, j - 1);
      HeadMarkerTransfer(c, t, tail, j);
      assert ([c] + t)[..j] == m;
    }
  }

  /** A marker holds no space. */
  lemma MarkerNoSpace(m: string)
    requires IsMarker(m)
    ensures forall i :: 0 <= i < |m| ==> m[i] != ' '
  {
    forall i | 0 <= i < |m|
      ensures m[i] != ' '
    {
      if 0 < i < |m| - 1 {
        assert IsDigit(m[i]);
      }
    }
  }

  /** A marker prefix carries over to a text that agrees after the first character. */
  lemma HeadMarkerTransfer(c: char, t: string, tail: string, j: nat)
    requires 0 < j <= 1 + |tail|
    requires j - 1 <= |t| && t[..j - 1] == tail[..j - 1]
    ensures ([c] + tail)[..j] == ([c] + t)[..j]
  {
    assert ([c] + tail)[..j] == [c] + tail[..j - 1];
    assert ([c] + t)[..j] == [c] + t[..j - 1];
  }

  /** The substitution leaves a text unchanged exactly when the text holds no marker. */
  lemma {:induction false} StripIdentity(s: string)
    ensures StripRefMarkers(s) == s <==> MarkerFree(s)
  {
    StripLeavesNoMarker(s);
    if s != [] && MarkerFree(s) {
      var n := MarkerLength(s);
      assert s[0..n] == s[..n];
      assert n == 0;
      forall i, j | 0 <= i < j <= |s| - 1
        ensures !IsMarker(s[1..][i..j])
      {
        assert s[1..][i..j] == s[i + 1..j + 1];
      }
      StripIdentity(s[1..]);
    }
  }

  /** Stripping twice is stripping once. */
  lemma StripIdempotent(s: string)
    ensures StripRefMarkers(StripRefMarkers(s)) == StripRefMarkers(s)
  {
    StripLeavesNoMarker(s);
    StripIdentity(StripRefMarkers(s));
  }

  /**
   Every character that cannot be part of a marker and is not the inserted
   space occurs in the result exactly when it occurs in the input; in
   particular no line feed is introduced or removed.
   */
  lemma {:induction false} StripKeepsOtherChars(s: string, c: char)
    requires c != ' ' && c != '[' && c != ']' && !IsDigit(c)
    ensures c in StripRefMarkers(s) <==> c in s
  {
    if s != [] {
      var n := MarkerLength(s);
      if n > 0 {
        assert s == s[..n] + s[n..];
        assert c !in s[..n];
        StripKeepsOtherChars(s[n..], c);
      } else {
        assert s == [s[0]] + s[1..];
        StripKeepsOtherChars(s[1..], c);
      }
    }
  }

  /**
   The text shrinks exactly when a marker is present, and then by at least
   two characters, since a marker of three or more characters becomes one.
   */
  lemma {:induction false} StripShrinks(s: string)
    ensures MarkerFree(s) <==> |StripRefMarkers(s)| == |s|
    ensures !MarkerFree(s) ==> |StripRefMarkers(s)| <= |s| - 2
  {
    StripIdentity(s);
    if s != [] && MarkerLength(s) == 0 {
      var t := s[1..];
      StripShrinks(t);
      StripIdentity(t);
      assert s == [s[0]] + t;
    }
  }

  /**
   A first character that opens no marker is copied, whatever follows it:
   any character other than '[', and a '[' not followed by digits and ']'.
   */
  lemma StripCopiesHead(c: char, t: string)
    requires c != '[' || MarkerLength([c] + t) == 0
    ensures StripRefMarkers([c] + t) == [c] + StripRefMarkers(t)
  {
    assert ([c] + t)[1..] == t;
  }

  /** No substring of "[x]" is a marker, for x as in BracketKept. */
  lemma BracketMarkerFree(x: string, i: nat, j: nat)
    requires '[' !in x && ']' !in x
    requires x == [] || exists k :: 0 <= k < |x| && !IsDigit(x[k])
    requires i < j <= |x| + 2
    ensures !IsMarker(("[" + x + "]")[i..j])
  {
    var s := "[" + x + "]";
    var t := s[i..j];
    if 0 < i <= |x| {
      assert t[0] == x[i - 1];
    } else if 0 < i {
      assert t[0] == ']';
    } else if 2 <= j < |s| {
      assert t[|t| - 1] == x[j - 2];
    } else if j == |s| && x != [] {
      var k :| 0 <= k < |x| && !IsDigit(x[k]);
      assert t[k + 1] == x[k];
    }
  }

  /**
   Bracketed text other than one or more digits is kept verbatim, as in
   "[]", "[a]" or "[1a]", provided it holds no bracket of its own.
   */
  lemma BracketKept(x: string)
    requires '[' !in x && ']' !in x
    requires x == [] || exists k :: 0 <= k < |x| && !IsDigit(x[k])
    ensures StripRefMarkers("[" + x + "]") == "[" + x + "]"
  {
    var s := "[" + x + "]";
    forall i, j | 0 <= i < j <= |s|
      ensures !IsMarker(s[i..j])
    {
      BracketMarkerFree(x, i, j);
    }
    StripIdentity(s);
  }

  /** The concrete cases "[]", "[a]" and "[1a]" survive. */
  lemma BracketExamples()
    ensures StripRefMarkers("[]") == "[]"
    ensures StripRefMarkers("[a]") == "[a]"
    ensures StripRefMarkers("[1a]") == "[1a]"
  {
    BracketKept("");
    assert "[" + "" + "]" == "[]";
    assert !IsDigit("a"[0]);
    BracketKept("a");
    assert "[" + "a" + "]" == "[a]";
    assert !IsDigit("1a"[1]);
    BracketKept("1a");
    assert "[" + "1a" + "]" == "[1a]";
  }

  /** The citation marker "[12]" becomes a single space. */
  lemma MarkerExample()
    ensures StripRefMarkers("[12]") == " "
  {
    StripMarkerPrefix("[12]", "");
    assert "[12]" + "" == "[12]";
  }

  /** A '[' directly before a marker opens none and is copied: "[[1]" becomes "[ ". */
  lemma NestedBracketExample()
    ensures StripRefMarkers("[[1]") == "[ "
  {
    assert MarkerLength("[[1]") == 0;
    assert "[[1]" == ['['] + "[1]";
    StripCopiesHead('[', "[1]");
    StripMarkerPrefix("[1]", "");
    assert "[1]" + "" == "[1]";
  }
}
