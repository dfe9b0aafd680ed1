/**
 The text normalisation at the start of Model.__preprocess_doc: line-feed
 runs are collapsed first, then reference markers are stripped. The result is
 what the annotation pipeline receives.
 */
module Preprocess {
  import opened NewlineCollapse
  import opened RefMarkers

  /** `re.sub(r'\[\d+\]', ' ', re.sub(r'\n+', '.', s))`. */
  function PreprocessText(s: string): (r: string)
    ensures '\n' !in r
    ensures MarkerFree(r)
    ensures |r| <= |s|
  {
    var collapsed := CollapseNewlines(s);
    StripLeavesNoMarker(collapsed);
    StripKeepsOtherChars(collapsed, '\n');
    StripRefMarkers(collapsed)
  }

  /** Normalising an already normalised text changes nothing. */
  lemma PreprocessIdempotent(s: string)
    ensures PreprocessText(PreprocessText(s)) == PreprocessText(s)
  {
    var r := PreprocessText(s);
    CollapseIdentity(r);
    StripIdentity(r);
  }

  /** Text with neither a line feed nor a reference marker passes through unchanged, and no other text does. */
  lemma PreprocessIdentity(s: string)
    ensures PreprocessText(s) == s <==> '\n' !in s && MarkerFree(s)
  {
    if '\n' !in s && MarkerFree(s) {
      CollapseIdentity(s);
      StripIdentity(s);
    }
  }

  /** The characters of a marker are brackets and digits, never a line feed. */
  lemma MarkerHasNoNewline(m: string)
    requires IsMarker(m)
    ensures '\n' !in m
  {
    forall i | 0 <= i < |m|
      ensures m[i] != '\n'
    {
      if 0 < i < |m| - 1 {
        assert IsDigit(m[i]);
      }
    }
  }

  /** Stripping copies a leading run of line feeds. */
  lemma {:induction false} StripNewlines(k: nat, t: string)
    ensures StripRefMarkers(Newlines(k) + t) == Newlines(k) + StripRefMarkers(t)
  {
    if k > 0 {
      assert Newlines(k) + t == ['\n'] + (Newlines(k - 1) + t);
      StripCopiesHead('\n', Newlines(k - 1) + t);
      StripNewlines(k - 1, t);
      assert Newlines(k) == ['\n'] + Newlines(k - 1);
    } else {
      assert Newlines(k) + t == t;
    }
  }

  /** Stripping never puts a line feed at the front of a text that lacks one there. */
  lemma StripHead(t: string)
    requires t == [] || t[0] != '\n'
    ensures StripRefMarkers(t) == [] || StripRefMarkers(t)[0] != '\n'
  {
  }

  /**
   A marker at the front of a collapsed text whose first character is c
   was a marker at the front of the text before collapsing.
   */
  lemma CollapsedHeadMarker(c: char, t: string, m: nat)
    requires 0 < m <= 1 + |CollapseNewlines(t)|
    ensures IsMarker(([c] + CollapseNewlines(t))[..m]) ==> m <= 1 + |t| && IsMarker(([c] + t)[..m])
  {
    var r := [c] + CollapseNewlines(t);
    if IsMarker(r[..m]) {
      var tail := CollapseNewlines(t);
      forall i | 0 <= i < m - 1
        ensures tail[i] != '.'
      {
        assert tail[i] == r[..m][i + 1];
      }
      CollapseVerbatimPrefix(t, m - 1);
      assert ([c] + t)[..m] == [c] + t[..m - 1];
      assert r[..m] == [c] + tail[..m - 1];
    }
  }

  /**
   The two substitutions commute: no marker holds a line feed and neither
   '.' nor ' ' can be part of a marker or of a line-feed run.
   */
  lemma {:induction false} StepsCommute(s: string)
    ensures StripRefMarkers(CollapseNewlines(s)) == CollapseNewlines(StripRefMarkers(s))
    decreases |s|
  {
    if s == [] {
    } else if s[0] == '\n' {
      var k := NewlineRun(s);
      var t := s[k..];
      RunSplit(s);
      CollapseRun(k, t);
      StripCopiesHead('.', CollapseNewlines(t));
      StepsCommute(t);
      StripNewlines(k, t);
      StripHead(t);
      CollapseRun(k, StripRefMarkers(t));
    } else if MarkerLength(s) > 0 {
      var n := MarkerLength(s);
      var m, u := s[..n], s[n..];
      assert s == m + u;
      MarkerHasNoNewline(m);
      CollapseIdentity(m);
      CollapseAppend(m, u);
      StripMarkerPrefix(m, CollapseNewlines(u));
      assert CollapseNewlines(" " + StripRefMarkers(u)) == " " + CollapseNewlines(StripRefMarkers(u));
      StepsCommute(u);
    } else {
      var c, t := s[0], s[1..];
      assert s == [c] + t;
      var collapsed := [c] + CollapseNewlines(t);
      var n := MarkerLength(collapsed);
      CollapsedHeadMarker(c, t, if n > 0 then n else 1);
      if 0 < n <= |s| {
        MarkerLengthUnique(s, n);
      }
      assert n == 0;
      assert StripRefMarkers(collapsed) == [c] + StripRefMarkers(CollapseNewlines(t));
      assert CollapseNewlines([c] + StripRefMarkers(t)) == [c] + CollapseNewlines(StripRefMarkers(t));
      StepsCommute(t);
    }
  }

  /** Collapsing turns the line feed inside "[1\n2]" into '.'. */
  lemma CollapseBrokenMarker()
    ensures CollapseNewlines("[1\n2]") == "[1.2]"
  {
    CollapseIdentity("[1");
    CollapseIdentity("2]");
    assert Newlines(1) + "2]" == "\n2]";
    CollapseRun(1, "2]");
    CollapseAppend("[1", "\n2]");
    assert "[1" + "\n2]" == "[1\n2]";
    assert "[1" + ("." + "2]") == "[1.2]";
  }

  /**
   A line feed inside brackets breaks the marker: "[1\n2]" becomes "[1.2]",
   which is not a marker and survives.
   */
  lemma BrokenMarkerSurvives()
    ensures PreprocessText("[1\n2]") == "[1.2]"
  {
    CollapseBrokenMarker();
    assert !IsDigit("1.2"[1]);
    BracketKept("1.2");
    assert "[" + "1.2" + "]" == "[1.2]";
  }
}
