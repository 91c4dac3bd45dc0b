/** The text side of `clean_html`: after the HTML parser has produced the
    visible text, every maximal run of two or more whitespace characters is
    replaced by one space (`re.sub(r"\s{2,}", " ", text)`). */
module Cleaner {
  import opened Text

  /** Length of the run of whitespace at the front of `s`. */
  function SpaceRun(s: string): (n: nat)
    ensures n <= |s|
    ensures forall i :: 0 <= i < n ==> IsSpace(s[i])
    ensures n == |s| || !IsSpace(s[n])
  {
    if |s| == 0 || !IsSpace(s[0]) then 0 else 1 + SpaceRun(s[1..])
  }

  /** The regular-expression substitution, scanning left to right: a run of
      at least two whitespace characters becomes `" "`, a lone whitespace
      character and every other character stay as they are. */
  function Collapse(s: string): (r: string)
    ensures |r| <= |s|
    ensures |r| == 0 <==> |s| == 0
    ensures |s| > 0 ==> (IsSpace(r[0]) <==> IsSpace(s[0]))
    decreases |s|
  {
    if |s| == 0 then []
    else if SpaceRun(s) >= 2 then " " + Collapse(s[SpaceRun(s)..])
    else [s[0]] + Collapse(s[1..])
  }

  /** `clean_html` on the text the HTML parser extracted. */
  function CleanHtml(parsed: string): string {
    Collapse(parsed)
  }

  /** The non-whitespace characters of `s`, in order. */
  function Visible(s: string): string {
    if |s| == 0 then []
    else if IsSpace(s[0]) then Visible(s[1..])
    else [s[0]] + Visible(s[1..])
  }

  /** No two neighbouring characters are both whitespace. */
  predicate NoDoubleSpace(s: string) {
    forall i :: 0 <= i < |s| - 1 ==> !(IsSpace(s[i]) && IsSpace(s[i + 1]))
  }

  lemma {:induction false} VisibleSkipsSpaces(s: string, k: nat)
    requires k <= |s|
    requires forall i :: 0 <= i < k ==> IsSpace(s[i])
    ensures Visible(s) == Visible(s[k..])
  {
    if k > 0 {
      assert s[1..][k - 1..] == s[k..];
      VisibleSkipsSpaces(s[1..], k - 1);
    }
  }

  /** The collapse keeps every non-whitespace character, in order, and adds none. */
  lemma {:induction false} CollapseKeepsVisible(s: string)
    ensures Visible(Collapse(s)) == Visible(s)
    decreases |s|
  {
    if |s| > 0 {
      var n := SpaceRun(s);
      if n >= 2 {
        CollapseKeepsVisible(s[n..]);
        VisibleSkipsSpaces(s, n);
        assert (" " + Collapse(s[n..]))[1..] == Collapse(s[n..]);
      } else {
        CollapseKeepsVisible(s[1..]);
        assert ([s[0]] + Collapse(s[1..]))[1..] == Collapse(s[1..]);
      }
    }
  }

  /** After the collapse no two whitespace characters are adjacent. */
  lemma {:induction false} CollapseNoDoubleSpace(s: string)
    ensures NoDoubleSpace(Collapse(s))
    decreases |s|
  {
    if |s| > 0 {
      var n := SpaceRun(s);
      var r := Collapse(s);
      if n >= 2 {
        var t := Collapse(s[n..]);
        CollapseNoDoubleSpace(s[n..]);
        assert r == " " + t;
        assert forall i :: 1 <= i < |r| ==> r[i] == t[i - 1];
      } else {
        var t := Collapse(s[1..]);
        CollapseNoDoubleSpace(s[1..]);
        assert r == [s[0]] + t;
        assert forall i :: 1 <= i < |r| ==> r[i] == t[i - 1];
        if IsSpace(s[0]) && |s| > 1 {
          assert !IsSpace(s[1]);
        }
      }
    }
  }

  /** A text in which no two whitespace characters are adjacent is left unchanged. */
  lemma {:induction false} CollapseFixes(s: string)
    requires NoDoubleSpace(s)
    ensures Collapse(s) == s
    decreases |s|
  {
    if |s| > 0 {
      assert SpaceRun(s) < 2 by {
        if |s| > 1 && IsSpace(s[0]) { assert !IsSpace(s[1]); }
      }
      assert NoDoubleSpace(s[1..]) by {
        forall i | 0 <= i < |s[1..]| - 1
          ensures !(IsSpace(s[1..][i]) && IsSpace(s[1..][i + 1]))
        {
          assert s[1..][i] == s[i + 1] && s[1..][i + 1] == s[i + 2];
        }
      }
      CollapseFixes(s[1..]);
      assert s == [s[0]] + s[1..];
    }
  }

  /** The texts the collapse leaves unchanged are exactly those without two
      adjacent whitespace characters. */
  lemma {:induction false} CollapseFixedPoint(s: string)
    ensures Collapse(s) == s <==> NoDoubleSpace(s)
  {
    if NoDoubleSpace(s) {
      CollapseFixes(s);
    } else {
      CollapseNoDoubleSpace(s);
    }
  }

  /** Collapsing twice is the same as collapsing once. */
  lemma {:induction false} CollapseIdempotent(s: string)
    ensures Collapse(Collapse(s)) == Collapse(s)
  {
    CollapseNoDoubleSpace(s);
    CollapseFixes(Collapse(s));
  }

  /** The collapse changes no token that `str.split()` sees. */
  lemma {:induction false} CollapseKeepsTokens(s: string)
    ensures Split(Collapse(s)) == Split(s)
    decreases |s|
  {
    if |s| > 0 {
      var n := SpaceRun(s);
      if n >= 2 {
        var t := Collapse(s[n..]);
        CollapseKeepsTokens(s[n..]);
        SplitSkipsSpaces(s, n);
        SplitSkipsSpaces(" " + t, 1);
        assert (" " + t)[1..] == t;
      } else if IsSpace(s[0]) {
        var t := Collapse(s[1..]);
        CollapseKeepsTokens(s[1..]);
        SplitSkipsSpaces([s[0]] + t, 1);
        assert ([s[0]] + t)[1..] == t;
      } else {
        var w := LeadingWord(s);
        var rest := s[|w|..];
        assert s == w + rest;
        CollapseWordThen(w, rest);
        CollapseKeepsTokens(rest);
        SplitWordThen(w, rest);
        SplitWordThen(w, Collapse(rest));
      }
    }
  }

  /** A whitespace-free prefix passes through the collapse unchanged. */
  lemma {:induction false} CollapseWordThen(w: string, rest: string)
    requires forall i :: 0 <= i < |w| ==> !IsSpace(w[i])
    ensures Collapse(w + rest) == w + Collapse(rest)
  {
    if |w| > 0 {
      var s := w + rest;
      assert s[0] == w[0] && !IsSpace(s[0]);
      assert SpaceRun(s) == 0;
      assert s[1..] == w[1..] + rest;
      calc {
        Collapse(s);
        [w[0]] + Collapse(w[1..] + rest);
        { CollapseWordThen(w[1..], rest); }
        [w[0]] + (w[1..] + Collapse(rest));
        { assert w == [w[0]] + w[1..]; }
        w + Collapse(rest);
      }
    } else {
      assert w + rest == rest;
    }
  }
}
