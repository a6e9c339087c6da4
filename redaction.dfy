/** The clue of a question: the article's summary with every case-insensitive occurrence
    of its title blacked out. The source builds a regular expression from the title with
    the flags "ig" and calls `replaceAll`; here the title is matched as literal text. */
module Redaction {
  import opened Text

  /** The full-block character the blackout marker is made of. */
  const Block: char := '\U{2588}'

  /** `HIDDENTEXT`: thirteen full blocks. */
  const HiddenText: string := "\U{2588}\U{2588}\U{2588}\U{2588}\U{2588}\U{2588}\U{2588}\U{2588}\U{2588}\U{2588}\U{2588}\U{2588}\U{2588}"

  /** `extract.replaceAll(new RegExp(title, "ig"), HIDDENTEXT)`: scanning from the left, each
      occurrence of `title` (ignoring case) is replaced by the marker and the scan resumes
      after it; occurrences never overlap. An empty title matches the empty text at every
      position, so the marker is put before every character and at the end. The lemmas
      below characterise the result for a non-empty title. */
  function Redact(extract: string, title: string): (r: string)
    decreases |extract|
  {
    if |title| == 0 then
      if extract == [] then HiddenText else HiddenText + [extract[0]] + Redact(extract[1..], title)
    else if |extract| < |title| then extract
    else if EqualIgnoringCase(extract[..|title|], title) then HiddenText + Redact(extract[|title|..], title)
    else [extract[0]] + Redact(extract[1..], title)
  }

  /** An extract with no occurrence of the title is left as it is. */
  lemma {:induction false} RedactWithoutMatch(extract: string, title: string)
    requires |title| > 0 && !ContainsIgnoringCase(extract, title)
    ensures Redact(extract, title) == extract
    decreases |extract|
  {
    if |extract| >= |title| {
      assert !MatchesAt(extract, title, 0);
      assert !ContainsIgnoringCase(extract[1..], title) by {
        forall i: nat ensures !MatchesAt(extract[1..], title, i) {
          assert !MatchesAt(extract, title, i + 1);
          if i + |title| <= |extract| - 1 {
            assert extract[1..][i..i + |title|] == extract[i + 1..i + 1 + |title|];
          }
        }
      }
      RedactWithoutMatch(extract[1..], title);
    }
  }

  /** The first occurrence of a non-empty title is replaced by the marker, the text before
      it is kept, and the scan goes on right after it. Together with `RedactWithoutMatch`
      this determines the clue for every non-empty title. */
  lemma RedactFirstMatch(extract: string, title: string, i: nat)
    requires |title| > 0 && MatchesAt(extract, title, i)
    requires forall j: nat :: j < i ==> !MatchesAt(extract, title, j)
    ensures Redact(extract, title) == extract[..i] + HiddenText + Redact(extract[i + |title|..], title)
  {
    RedactKeepsPrefix(extract, title, i);
    var rest := extract[i..];
    assert rest[0..0 + |title|] == extract[i..i + |title|];
    assert MatchesAt(rest, title, 0);
    RedactReplacesFirst(rest, title);
    assert rest[|title|..] == extract[i + |title|..];
    var after := Redact(extract[i + |title|..], title);
    assert extract[..i] + (HiddenText + after) == extract[..i] + HiddenText + after;
  }

  /** Up to the first occurrence of the title, the extract is copied unchanged. */
  lemma {:induction false} RedactKeepsPrefix(extract: string, title: string, i: nat)
    requires |title| > 0 && i <= |extract|
    requires forall j: nat :: j < i ==> !MatchesAt(extract, title, j)
    ensures Redact(extract, title) == extract[..i] + Redact(extract[i..], title)
    decreases i
  {
    if i == 0 {
      assert extract[..0] == [] && extract[0..] == extract;
    } else if |extract| < |title| {
      RedactShort(extract, title);
      RedactShort(extract[i..], title);
      assert extract == extract[..i] + extract[i..];
    } else {
      var tail := extract[1..];
      NoMatchInTail(extract, title, i);
      RedactKeepsPrefix(tail, title, i - 1);
      assert tail[i - 1..] == extract[i..];
      RedactCopiesFirst(extract, title);
      PrependToPrefix(extract, i, Redact(tail, title), Redact(extract[i..], title));
    }
  }

  /** No occurrence before `i` in the extract means none before `i - 1` in its tail. */
  lemma NoMatchInTail(extract: string, title: string, i: nat)
    requires 0 < i <= |extract|
    requires forall j: nat :: j < i ==> !MatchesAt(extract, title, j)
    ensures forall j: nat :: j < i - 1 ==> !MatchesAt(extract[1..], title, j)
  {
    forall j: nat | j < i - 1 ensures !MatchesAt(extract[1..], title, j) {
      MatchesInTail(extract, title, j);
    }
  }

  /** Putting back the first character of `e` in front of a split of its tail. */
  lemma PrependToPrefix(e: string, i: nat, b: string, c: string)
    requires 0 < i <= |e| && b == e[1..][..i - 1] + c
    ensures [e[0]] + b == e[..i] + c
  {
    assert [e[0]] + e[1..][..i - 1] == e[..i];
  }

  /** An extract shorter than a non-empty title holds no occurrence of it. */
  lemma RedactShort(extract: string, title: string)
    requires |title| > 0 && |extract| < |title|
    ensures Redact(extract, title) == extract
  {
  }

  /** An occurrence at the front is replaced by the marker. */
  lemma RedactReplacesFirst(extract: string, title: string)
    requires |title| > 0 && MatchesAt(extract, title, 0)
    ensures Redact(extract, title) == HiddenText + Redact(extract[|title|..], title)
  {
    assert extract[..|title|] == extract[0..0 + |title|];
  }

  /** Without an occurrence at the front, the first character is copied to the clue. */
  lemma RedactCopiesFirst(extract: string, title: string)
    requires |title| > 0 && |extract| >= |title| && !MatchesAt(extract, title, 0)
    ensures Redact(extract, title) == [extract[0]] + Redact(extract[1..], title)
  {
    assert extract[..|title|] == extract[0..0 + |title|];
  }

  /** An occurrence in the extract past its first character is one in its tail. */
  lemma MatchesInTail(extract: string, title: string, j: nat)
    requires |extract| > 0
    ensures MatchesAt(extract[1..], title, j) <==> MatchesAt(extract, title, j + 1)
  {
    if j + |title| <= |extract| - 1 {
      assert extract[1..][j..j + |title|] == extract[j + 1..j + 1 + |title|];
    }
  }

  /** An empty title puts the marker before each character of the extract and at its end. */
  lemma {:induction false} RedactEmptyTitle(extract: string)
    ensures |Redact(extract, [])| == |extract| * (|HiddenText| + 1) + |HiddenText|
    ensures Redact(extract, [])[|extract| * (|HiddenText| + 1)..] == HiddenText
    ensures forall k :: 0 <= k < |extract| ==>
      Redact(extract, [])[k * (|HiddenText| + 1)..(k + 1) * (|HiddenText| + 1)] == HiddenText + [extract[k]]
  {
    var r := Redact(extract, []);
    if extract != [] {
      var head, rest := HiddenText + [extract[0]], Redact(extract[1..], []);
      assert r == head + rest;
      RedactEmptyTitle(extract[1..]);
      forall k | 0 <= k < |extract|
        ensures r[k * (|HiddenText| + 1)..(k + 1) * (|HiddenText| + 1)] == HiddenText + [extract[k]]
      {
        if k > 0 {
          assert extract[1..][k - 1] == extract[k];
          WindowAfterPrefix(head, rest, k * (|HiddenText| + 1), |HiddenText| + 1);
        }
      }
    }
  }

  /** An occurrence of the title (or an empty title) puts the marker into the clue. */
  lemma RedactWithMatch(extract: string, title: string)
    requires |title| == 0 || ContainsIgnoringCase(extract, title)
    ensures Contains(Redact(extract, title), HiddenText)
  {
    if |title| == 0 {
      RedactStartsMarked(extract, title);
    } else {
      var i: nat :| MatchesAt(extract, title, i);
      RedactFindsMatch(extract, title, i);
    }
  }

  /** With an empty title the clue starts with the marker. */
  lemma RedactStartsMarked(extract: string, title: string)
    requires |title| == 0
    ensures Contains(Redact(extract, title), HiddenText)
  {
    var r := Redact(extract, title);
    var rest := if extract == [] then [] else [extract[0]] + Redact(extract[1..], title);
    assert r == HiddenText + rest;
    ContainsPrefix(HiddenText, rest);
  }

  lemma {:induction false} RedactFindsMatch(extract: string, title: string, i: nat)
    requires |title| > 0 && MatchesAt(extract, title, i)
    ensures Contains(Redact(extract, title), HiddenText)
    decreases |extract|
  {
    if EqualIgnoringCase(extract[..|title|], title) {
      var rest := Redact(extract[|title|..], title);
      assert Redact(extract, title) == HiddenText + rest;
      ContainsPrefix(HiddenText, rest);
    } else {
      var rest := Redact(extract[1..], title);
      assert Redact(extract, title) == [extract[0]] + rest;
      assert i != 0;
      assert extract[1..][i - 1..i - 1 + |title|] == extract[i..i + |title|];
      RedactFindsMatch(extract[1..], title, i - 1);
      ContainsInSuffix([extract[0]], rest, HiddenText);
    }
  }

  /** When the extract does not itself contain the marker, the clue contains the marker
      exactly when the title occurs in the extract (ignoring case) or is empty: this is the
      test that makes a generation attempt fail. */
  lemma ClueMarkedIff(extract: string, title: string)
    requires !Contains(extract, HiddenText)
    ensures Contains(Redact(extract, title), HiddenText) <==> |title| == 0 || ContainsIgnoringCase(extract, title)
  {
    if |title| == 0 || ContainsIgnoringCase(extract, title) {
      RedactWithMatch(extract, title);
    } else {
      RedactWithoutMatch(extract, title);
    }
  }

  /** A window that holds a full block cannot match a title without one. */
  lemma BlockBreaksMatch(w: string, title: string, j: nat)
    requires j < |w| && w[j] == Block && Block !in title
    ensures !EqualIgnoringCase(w, title)
  {
    if |w| == |title| {
      assert Lower(w[j]) != Lower(title[j]);
    }
  }

  /** Each prefix of the clue is either copied unchanged from the extract or holds a block. */
  lemma {:induction false} RedactPrefix(extract: string, title: string, k: nat)
    requires |title| > 0 && k <= |Redact(extract, title)|
    ensures || (k <= |extract| && Redact(extract, title)[..k] == extract[..k])
            || (exists j :: 0 <= j < k && Redact(extract, title)[j] == Block)
    decreases |extract|
  {
    var r := Redact(extract, title);
    if k == 0 {
    } else if |extract| < |title| {
      RedactShort(extract, title);
    } else if EqualIgnoringCase(extract[..|title|], title) {
      assert r[0] == Block;
    } else {
      var rest := Redact(extract[1..], title);
      assert r == [extract[0]] + rest;
      RedactPrefix(extract[1..], title, k - 1);
      if k - 1 <= |extract[1..]| && rest[..k - 1] == extract[1..][..k - 1] {
        assert r[..k] == [extract[0]] + rest[..k - 1];
      } else {
        var j :| 0 <= j < k - 1 && rest[j] == Block;
        assert r[j + 1] == Block;
      }
    }
  }

  /** No case-insensitive occurrence of a non-empty title survives in the clue, unless the
      title itself contains the block character the marker is made of. */
  lemma {:induction false} RedactHidesTitle(extract: string, title: string, i: nat)
    requires |title| > 0 && Block !in title
    ensures !MatchesAt(Redact(extract, title), title, i)
    decreases |extract|, 1
  {
    if |extract| < |title| {
    } else if EqualIgnoringCase(extract[..|title|], title) {
      HidesAfterMarker(extract, title, i);
    } else {
      HidesAfterCopy(extract, title, i);
    }
  }

  lemma {:induction false} HidesAfterMarker(extract: string, title: string, i: nat)
    requires |title| > 0 && Block !in title && |extract| >= |title|
    requires EqualIgnoringCase(extract[..|title|], title)
    ensures !MatchesAt(Redact(extract, title), title, i)
    decreases |extract|, 0
  {
    var r := Redact(extract, title);
    var rest := Redact(extract[|title|..], title);
    assert r == HiddenText + rest;
    if i + |title| <= |r| {
      if i < |HiddenText| {
        WindowInMarker(r, rest, title, i);
      } else {
        RedactHidesTitle(extract[|title|..], title, i - |HiddenText|);
        WindowAfterPrefix(HiddenText, rest, i, |title|);
      }
    }
  }

  lemma {:induction false} HidesAfterCopy(extract: string, title: string, i: nat)
    requires |title| > 0 && Block !in title && |extract| >= |title|
    requires !EqualIgnoringCase(extract[..|title|], title)
    ensures !MatchesAt(Redact(extract, title), title, i)
    decreases |extract|, 0
  {
    var r := Redact(extract, title);
    var rest := Redact(extract[1..], title);
    assert extract[0..0 + |title|] == extract[..|title|];
    RedactCopiesFirst(extract, title);
    if i == 0 {
      HidesAtCopiedStart(extract, title);
    } else if i + |title| <= |r| {
      RedactHidesTitle(extract[1..], title, i - 1);
      WindowAfterPrefix([extract[0]], rest, i, |title|);
    }
  }

  /** A window that starts inside the marker at the front of `r` cannot match. */
  lemma WindowInMarker(r: string, rest: string, title: string, i: nat)
    requires r == HiddenText + rest && i < |HiddenText| && i + |title| <= |r|
    requires |title| > 0 && Block !in title
    ensures !EqualIgnoringCase(r[i..i + |title|], title)
  {
    var w := r[i..i + |title|];
    assert w[0] == HiddenText[i] == Block;
    BlockBreaksMatch(w, title, 0);
  }

  /** A window past the prefix `p` is a window of what follows it. */
  lemma WindowAfterPrefix(p: string, rest: string, i: nat, n: nat)
    requires |p| <= i && i + n <= |p| + |rest|
    ensures (p + rest)[i..i + n] == rest[i - |p|..i - |p| + n]
  {
  }

  /** The window at the first copied character is either the unmatched text of the extract
      or reaches into a marker. */
  lemma HidesAtCopiedStart(extract: string, title: string)
    requires |title| > 0 && Block !in title && |extract| >= |title|
    requires !EqualIgnoringCase(extract[..|title|], title)
    ensures !MatchesAt(Redact(extract, title), title, 0)
  {
    var r := Redact(extract, title);
    var rest := Redact(extract[1..], title);
    assert extract[0..0 + |title|] == extract[..|title|];
    RedactCopiesFirst(extract, title);
    if |title| <= |r| {
      RedactPrefix(extract[1..], title, |title| - 1);
      StartWindow(extract, rest, title);
    }
  }

  /** The first window of `[extract[0]] + rest`, when `rest` begins with the copied text of
      the extract or with a block. */
  lemma StartWindow(extract: string, rest: string, title: string)
    requires |title| > 0 && Block !in title && |extract| >= |title| && |title| - 1 <= |rest|
    requires !EqualIgnoringCase(extract[..|title|], title)
    requires || (|title| - 1 <= |extract[1..]| && rest[..|title| - 1] == extract[1..][..|title| - 1])
             || (exists j :: 0 <= j < |title| - 1 && rest[j] == Block)
    ensures !EqualIgnoringCase(([extract[0]] + rest)[0..|title|], title)
  {
    var w := ([extract[0]] + rest)[0..|title|];
    if |title| - 1 <= |extract[1..]| && rest[..|title| - 1] == extract[1..][..|title| - 1] {
      assert w == extract[..|title|];
    } else {
      var j :| 0 <= j < |title| - 1 && rest[j] == Block;
      assert w[j + 1] == Block;
      BlockBreaksMatch(w, title, j + 1);
    }
  }
}
