/**
 The first normalisation step of Model.__preprocess_doc: the substitution of
 the pattern `\n+` by ".". Python's `re.sub` scans left to right; at a line
 feed the greedy `\n+` takes the whole run of line feeds, which is replaced by
 one full stop, and every other character is copied.
 */
module NewlineCollapse {

  /** A string of k line feeds. */
  function Newlines(k: nat): (r: string)
    ensures |r| == k
    ensures forall i :: 0 <= i < k ==> r[i] == '\n'
  {
    seq(k, _ => '\n')
  }

  /** Length of the run of line feeds at the front of s: what the greedy `\n+` consumes there. */
  function NewlineRun(s: string): (n: nat)
    ensures n <= |s|
    ensures forall i :: 0 <= i < n ==> s[i] == '\n'
    ensures n < |s| ==> s[n] != '\n'
  {
    if s != [] && s[0] == '\n' then 1 + NewlineRun(s[1..]) else 0
  }

  /** `re.sub(r'\n+', '.', s)`: each maximal run of line feeds becomes a single '.'. */
  function CollapseNewlines(s: string): (r: string)
    ensures '\n' !in r
    ensures |r| <= |s|
    decreases |s|
  {
    if s == [] then []
    else if s[0] == '\n' then "." + CollapseNewlines(s[NewlineRun(s)..])
    else [s[0]] + CollapseNewlines(s[1..])
  }

  /**
   An independent reading of the same substitution, one position at a time:
   a line feed followed by another line feed disappears, a line feed that ends
   its run becomes '.', and any other character is copied.
   */
  function CollapseByPosition(s: string): string
  {
    if s == [] then [] else FirstOutput(s) + CollapseByPosition(s[1..])
  }

  /** What the position-by-position reading emits for the first character of s. */
  function FirstOutput(s: string): string
    requires s != []
  {
    if s[0] != '\n' then [s[0]]
    else if |s| > 1 && s[1] == '\n' then []
    else "."
  }

  lemma {:induction false} ByPositionRun(k: nat, t: string)
    requires k >= 1
    requires t == [] || t[0] != '\n'
    ensures CollapseByPosition(Newlines(k) + t) == "." + CollapseByPosition(t)
  {
    var s := Newlines(k) + t;
    if k == 1 {
      assert s[1..] == t;
    } else {
      assert s[1..] == Newlines(k - 1) + t;
      ByPositionRun(k - 1, t);
    }
  }

  /** A string is its leading run of line feeds followed by the rest. */
  lemma RunSplit(s: string)
    ensures s == Newlines(NewlineRun(s)) + s[NewlineRun(s)..]
  {
  }

  /** The greedy scan and the position-by-position reading agree on every string. */
  lemma {:induction false} CollapseMatchesByPosition(s: string)
    ensures CollapseNewlines(s) == CollapseByPosition(s)
  {
    if s == [] {
    } else if s[0] == '\n' {
      var k := NewlineRun(s);
      RunSplit(s);
      ByPositionRun(k, s[k..]);
      CollapseMatchesByPosition(s[k..]);
    } else {
      CollapseMatchesByPosition(s[1..]);
    }
  }

  /** A run of k >= 1 line feeds, not followed by another line feed, becomes exactly one '.'. */
  lemma CollapseRun(k: nat, t: string)
    requires k >= 1
    requires t == [] || t[0] != '\n'
    ensures CollapseNewlines(Newlines(k) + t) == "." + CollapseNewlines(t)
  {
    var s := Newlines(k) + t;
    if t != [] {
      assert s[k] == t[0];
    }
    assert NewlineRun(s) == k;
    assert s[k..] == t;
  }

  /** The step changes a string exactly when the string holds a line feed. */
  lemma {:induction false} CollapseIdentity(s: string)
    ensures CollapseNewlines(s) == s <==> '\n' !in s
  {
    if s != [] && '\n' !in s {
      assert '\n' !in s[1..];
      CollapseIdentity(s[1..]);
    }
  }

  /** The position-by-position reading distributes over a cut that does not split a line-feed run. */
  lemma {:induction false} ByPositionAppend(a: string, b: string)
    requires a == [] || b == [] || a[|a| - 1] != '\n' || b[0] != '\n'
    ensures CollapseByPosition(a + b) == CollapseByPosition(a) + CollapseByPosition(b)
    decreases |a|, 1
  {
    if a == [] {
      assert a + b == b;
    } else {
      ByPositionAppendStep(a, b);
    }
  }

  lemma {:induction false} ByPositionAppendStep(a: string, b: string)
    requires a != []
    requires b == [] || a[|a| - 1] != '\n' || b[0] != '\n'
    ensures CollapseByPosition(a + b) == CollapseByPosition(a) + CollapseByPosition(b)
    decreases |a|, 0
  {
    var rest := a[1..];
    assert (a + b)[1..] == rest + b;
    FirstOutputAppend(a, b);
    assert CollapseByPosition(a + b) == FirstOutput(a) + CollapseByPosition(rest + b);
    assert rest == [] || rest[|rest| - 1] == a[|a| - 1];
    ByPositionAppend(rest, b);
  }

  /** The first output depends on at most two characters, so it survives such a cut. */
  lemma FirstOutputAppend(a: string, b: string)
    requires a != []
    requires b == [] || a[|a| - 1] != '\n' || b[0] != '\n'
    ensures FirstOutput(a + b) == FirstOutput(a)
  {
    if |a| > 1 {
      assert (a + b)[1] == a[1];
    } else if b != [] {
      assert (a + b)[1] == b[0];
    } else {
      assert a + b == a;
    }
  }

  /**
   Collapsing distributes over concatenation unless the cut falls inside a
   run of line feeds: every character away from such a run is kept in place
   and in order.
   */
  lemma CollapseAppend(a: string, b: string)
    requires a == [] || b == [] || a[|a| - 1] != '\n' || b[0] != '\n'
    ensures CollapseNewlines(a + b) == CollapseNewlines(a) + CollapseNewlines(b)
  {
    CollapseMatchesByPosition(a + b);
    CollapseMatchesByPosition(a);
    CollapseMatchesByPosition(b);
    ByPositionAppend(a, b);
  }

  /**
   Where the result holds no '.', nothing was collapsed: the first k
   characters of the result are the first k characters of the input.
   */
  lemma {:induction false} CollapseVerbatimPrefix(t: string, k: nat)
    requires k <= |CollapseNewlines(t)|
    requires forall i :: 0 <= i < k ==> CollapseNewlines(t)[i] != '.'
    ensures k <= |t| && t[..k] == CollapseNewlines(t)[..k]
  {
    if k > 0 {
      var r := CollapseNewlines(t);
      assert r[0] != '.';
      assert r == [t[0]] + CollapseNewlines(t[1..]);
      forall i | 0 <= i < k - 1
        ensures CollapseNewlines(t[1..])[i] != '.'
      {
        assert CollapseNewlines(t[1..])[i] == r[i + 1];
      }
      CollapseVerbatimPrefix(t[1..], k - 1);
      assert t[..k] == [t[0]] + t[1..][..k - 1];
    }
  }
}
