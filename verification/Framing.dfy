/** Framing of page-controlled text between markers the text cannot forge. */
module Framing {

  const BEGIN := "<<<BEGIN UNTRUSTED EXTERNAL CONTENT>>>"
  const END := "<<<END UNTRUSTED EXTERNAL CONTENT>>>"

  /** The six characters that stand for an escaped "<". */
  const ESCAPED_LESS := "\\u003c"

  predicate OccursAt(s: string, w: string, i: int) {
    0 <= i <= |s| - |w| && forall k :: 0 <= k < |w| ==> s[i + k] == w[k]
  }

  ghost predicate Occurs(s: string, w: string) {
    exists i :: OccursAt(s, w, i)
  }

  /** strings.ReplaceAll for a non-empty pattern. */
  function ReplaceAll(s: string, pattern: string, replacement: string): string
    requires pattern != ""
  {
    if |s| < |pattern| then s
    else if pattern <= s then replacement + ReplaceAll(s[|pattern|..], pattern, replacement)
    else [s[0]] + ReplaceAll(s[1..], pattern, replacement)
  }

  function Escaped(marker: string): string
    requires marker != ""
  {
    ESCAPED_LESS + marker[1..]
  }

  function EscapeMarkers(value: string): string {
    ReplaceAll(ReplaceAll(value, BEGIN, Escaped(BEGIN)), END, Escaped(END))
  }

  function Framed(begin: string, text: string, end: string): string {
    begin + "\n" + (text + "\n" + end)
  }

  /** browserUntrustedText. */
  function UntrustedText(value: string): string {
    Framed(BEGIN, EscapeMarkers(value), END)
  }

  // ---------- no replacement makes a marker ----------

  /** What the two markers have in common: "<<<" and then neither "<" nor a backslash nor a line break. */
  predicate IsMarker(m: string) {
    |m| > 3 && m[0] == m[1] == m[2] == '<' && forall k :: 3 <= k < |m| ==> m[k] != '<' && m[k] != '\\' && m[k] != '\n'
  }

  lemma MarkersAreMarkers()
    ensures IsMarker(BEGIN) && IsMarker(END) && BEGIN[3] == 'B' && END[3] == 'E' && |BEGIN| == |END| + 2
  {
  }

  /** A backslash-free prefix of the result was already a prefix of the input. */
  lemma {:induction false} PrefixComesThrough(s: string, pattern: string, replacement: string, w: string)
    requires pattern != "" && replacement != "" && replacement[0] !in w
    requires w <= ReplaceAll(s, pattern, replacement)
    ensures w <= s
  {
    if w != "" && |s| >= |pattern| {
      var r := ReplaceAll(s, pattern, replacement);
      assert r[0] == w[0];
      if !(pattern <= s) {
        assert w[1..] <= r[1..] == ReplaceAll(s[1..], pattern, replacement);
        PrefixComesThrough(s[1..], pattern, replacement, w[1..]);
      }
    }
  }

  /** No marker begins inside an escaped one. */
  lemma NothingBeginsInside(m: string, w: string, rest: string, i: nat)
    requires IsMarker(m) && IsMarker(w) && i < |Escaped(m)|
    ensures !OccursAt(Escaped(m) + rest, w, i)
  {
    var r := Escaped(m) + rest;
    assert r[8] == m[3];
    assert i >= 6 ==> r[i] == m[i - 5];
  }

  lemma OccursFurtherOn(a: string, b: string, w: string, i: int)
    requires OccursAt(a + b, w, i) && |a| <= i
    ensures OccursAt(b, w, i - |a|)
  {
    forall k | 0 <= k < |w|
      ensures b[i - |a| + k] == w[k]
    {
      assert (a + b)[i + k] == w[k];
    }
  }

  lemma OccursAfterEscaped(m: string, rest: string, w: string, i: nat)
    requires IsMarker(m) && IsMarker(w) && OccursAt(Escaped(m) + rest, w, i)
    ensures |Escaped(m)| <= i && OccursAt(rest, w, i - |Escaped(m)|)
  {
    if i < |Escaped(m)| {
      NothingBeginsInside(m, w, rest, i);
    } else {
      OccursFurtherOn(Escaped(m), rest, w, i);
    }
  }

  /** A marker in the result is one the input had, and not the one being replaced. */
  lemma {:induction false} ReplacingMakesNoMarker(s: string, m: string, w: string, i: nat)
    requires IsMarker(m) && IsMarker(w)
    requires OccursAt(ReplaceAll(s, m, Escaped(m)), w, i)
    ensures w != m && Occurs(s, w)
    decreases |s|
  {
    if |s| < |m| {
      assert OccursAt(s, w, i);
    } else if m <= s {
      var rest := ReplaceAll(s[|m|..], m, Escaped(m));
      OccursAfterEscaped(m, rest, w, i);
      ReplacingMakesNoMarker(s[|m|..], m, w, i - |Escaped(m)|);
      OccursInTail(s, w, |m|);
    } else if i == 0 {
      StartsWhereItOccurs(ReplaceAll(s, m, Escaped(m)), w);
      PrefixComesThrough(s, m, Escaped(m), w);
      assert OccursAt(s, w, 0);
    } else {
      OccursFurtherOn([s[0]], ReplaceAll(s[1..], m, Escaped(m)), w, i);
      ReplacingMakesNoMarker(s[1..], m, w, i - 1);
      OccursInTail(s, w, 1);
    }
  }

  lemma StartsWhereItOccurs(r: string, w: string)
    requires OccursAt(r, w, 0)
    ensures w <= r
  {
    forall k | 0 <= k < |w|
      ensures r[k] == w[k]
    {
      assert r[0 + k] == w[k];
    }
  }

  lemma OccursInTail(s: string, w: string, n: nat)
    requires n <= |s| && Occurs(s[n..], w)
    ensures Occurs(s, w)
  {
    var i :| OccursAt(s[n..], w, i);
    forall k | 0 <= k < |w|
      ensures s[n + i + k] == w[k]
    {
      assert s[n..][i + k] == w[k];
    }
    assert OccursAt(s, w, n + i);
  }

  /** The second replacement does not bring back a marker that the first one removed. */
  lemma EscapedTextHasNoMarker(value: string, i: nat)
    ensures !OccursAt(EscapeMarkers(value), BEGIN, i) && !OccursAt(EscapeMarkers(value), END, i)
  {
    MarkersAreMarkers();
    var first := ReplaceAll(value, BEGIN, Escaped(BEGIN));
    if OccursAt(EscapeMarkers(value), END, i) {
      ReplacingMakesNoMarker(first, END, END, i);
    }
    if OccursAt(EscapeMarkers(value), BEGIN, i) {
      ReplacingMakesNoMarker(first, END, BEGIN, i);
      var j :| OccursAt(first, BEGIN, j);
      ReplacingMakesNoMarker(value, BEGIN, BEGIN, j);
    }
  }

  // ---------- the frame ----------

  /** A word lies on one side of a line break, or has one in it. */
  lemma OccursOnOneSide(a: string, b: string, w: string, i: int)
    requires OccursAt(a + "\n" + b, w, i)
    ensures OccursAt(a, w, i) || OccursAt(b, w, i - |a| - 1) || '\n' in w
  {
    var s := a + "\n" + b;
    if i + |w| <= |a| {
      assert forall k :: 0 <= k < |w| ==> w[k] == s[i + k] == a[i + k];
    } else if i <= |a| {
      assert s[i + (|a| - i)] == w[|a| - i];
    } else {
      assert forall k :: 0 <= k < |w| ==> w[k] == s[i + k] == b[i - |a| - 1 + k];
    }
  }

  /** A marker occurs in a marker only as that marker itself. */
  lemma MarkerInMarker(m: string, w: string, i: int)
    requires IsMarker(m) && IsMarker(w) && OccursAt(m, w, i)
    ensures i == 0 && m[3] == w[3]
  {
    assert m[i] == w[0] && m[i + 1] == w[1] && m[i + 2] == w[2] && m[i + 3] == w[3];
  }

  lemma StartsWith(s: string, w: string, rest: string)
    requires s == w + rest
    ensures OccursAt(s, w, 0)
  {
  }

  lemma EndsWith(s: string, front: string, w: string)
    requires s == front + w
    ensures OccursAt(s, w, |s| - |w|)
  {
  }

  /** Around a text that has neither marker, a marker occurs only where the frame put it. */
  lemma OnlyInFrame(b: string, text: string, e: string, w: string, i: int)
    requires IsMarker(b) && IsMarker(e) && b[3] != e[3] && (w == b || w == e)
    requires forall j :: !OccursAt(text, w, j)
    requires OccursAt(Framed(b, text, e), w, i)
    ensures i == if w == b then 0 else |b| + |text| + 2
  {
    OccursOnOneSide(b, text + "\n" + e, w, i);
    if OccursAt(b, w, i) {
      MarkerInMarker(b, w, i);
    } else {
      OccursOnOneSide(text, e, w, i - |b| - 1);
      MarkerInMarker(e, w, i - |b| - |text| - 2);
    }
  }

  lemma FrameEndsWith(b: string, text: string, e: string)
    ensures Framed(b, text, e) == b + "\n" + (text + "\n") + e
  {
  }

  lemma FrameStartsWith(b: string, text: string, e: string)
    ensures Framed(b, text, e) == b + ("\n" + (text + "\n" + e))
  {
  }

  lemma FrameBegins(b: string, text: string, e: string)
    ensures OccursAt(Framed(b, text, e), b, 0)
  {
    FrameStartsWith(b, text, e);
    StartsWith(Framed(b, text, e), b, "\n" + (text + "\n" + e));
  }

  lemma FrameEnds(b: string, text: string, e: string)
    ensures OccursAt(Framed(b, text, e), e, |Framed(b, text, e)| - |e|)
  {
    FrameEndsWith(b, text, e);
    EndsWith(Framed(b, text, e), b + "\n" + (text + "\n"), e);
  }

  lemma NoMarkerAnywhere(value: string, w: string)
    requires w == BEGIN || w == END
    ensures forall j :: !OccursAt(EscapeMarkers(value), w, j)
  {
    forall j
      ensures !OccursAt(EscapeMarkers(value), w, j)
    {
      if j >= 0 {
        EscapedTextHasNoMarker(value, j);
      }
    }
  }

  /**
    For every input the output has the begin marker once, at its start, and the end marker once, at
    its end.
   */
  lemma FrameIsUnambiguous(value: string, w: string, i: int)
    requires w == BEGIN || w == END
    ensures OccursAt(UntrustedText(value), w, i) <==> i == if w == BEGIN then 0 else |UntrustedText(value)| - |END|
  {
    MarkersAreMarkers();
    NoMarkerAnywhere(value, w);
    FrameBegins(BEGIN, EscapeMarkers(value), END);
    FrameEnds(BEGIN, EscapeMarkers(value), END);
    if OccursAt(UntrustedText(value), w, i) {
      OnlyInFrame(BEGIN, EscapeMarkers(value), END, w, i);
    }
  }

  /** Text that holds neither marker is passed through as it is. */
  lemma {:induction false} OrdinaryTextIsKept(value: string, pattern: string, replacement: string)
    requires pattern != "" && !Occurs(value, pattern)
    ensures ReplaceAll(value, pattern, replacement) == value
  {
    if |value| >= |pattern| {
      assert pattern <= value ==> OccursAt(value, pattern, 0);
      if Occurs(value[1..], pattern) {
        OccursInTail(value, pattern, 1);
      }
      OrdinaryTextIsKept(value[1..], pattern, replacement);
    }
  }

  // ---------- everything else is kept ----------

  /** The parts with a word between each two of them. */
  function JoinWith(parts: seq<string>, word: string): string
    requires parts != []
  {
    if |parts| == 1 then parts[0] else parts[0] + word + JoinWith(parts[1..], word)
  }

  lemma JoinMore(c: char, parts: seq<string>, word: string)
    requires parts != []
    ensures JoinWith([[c] + parts[0]] + parts[1..], word) == [c] + JoinWith(parts, word)
  {
    var more := [[c] + parts[0]] + parts[1..];
    assert more[1..] == parts[1..];
    if |parts| > 1 {
      assert [c] + parts[0] + word + JoinWith(parts[1..], word) == [c] + (parts[0] + word + JoinWith(parts[1..], word));
    }
  }

  lemma JoinEmptyFirst(parts: seq<string>, word: string)
    requires parts != []
    ensures JoinWith([""] + parts, word) == word + JoinWith(parts, word)
  {
    assert ([""] + parts)[1..] == parts;
    assert "" + word == word;
  }

  /** Replacing changes the pattern wherever it stands, and not a character of what stands between. */
  lemma {:induction false} ReplacingSwapsTheWord(s: string, pattern: string, replacement: string) returns (parts: seq<string>)
    requires pattern != ""
    ensures parts != [] && JoinWith(parts, pattern) == s && JoinWith(parts, replacement) == ReplaceAll(s, pattern, replacement)
    decreases |s|
  {
    if |s| < |pattern| {
      parts := [s];
    } else if pattern <= s {
      var rest := ReplacingSwapsTheWord(s[|pattern|..], pattern, replacement);
      parts := [""] + rest;
      JoinEmptyFirst(rest, pattern);
      JoinEmptyFirst(rest, replacement);
      assert s == pattern + s[|pattern|..];
    } else {
      var rest := ReplacingSwapsTheWord(s[1..], pattern, replacement);
      parts := [[s[0]] + rest[0]] + rest[1..];
      JoinMore(s[0], rest, pattern);
      JoinMore(s[0], rest, replacement);
      assert s == [s[0]] + s[1..];
    }
  }

  /**
    The framed text is the page's own: its parts between the markers it held stand unchanged between the
    frame's two lines, and each of those markers has its first character escaped.
   */
  lemma FramedTextIsThePages(value: string) returns (first: seq<string>, second: seq<string>)
    ensures first != [] && JoinWith(first, "<<<BEGIN UNTRUSTED EXTERNAL CONTENT>>>") == value
    ensures second != [] &&
      JoinWith(second, "<<<END UNTRUSTED EXTERNAL CONTENT>>>") ==
      JoinWith(first, "\\u003c" + "<<BEGIN UNTRUSTED EXTERNAL CONTENT>>>")
    ensures UntrustedText(value) ==
      "<<<BEGIN UNTRUSTED EXTERNAL CONTENT>>>" + "\n" +
      (JoinWith(second, "\\u003c" + "<<END UNTRUSTED EXTERNAL CONTENT>>>") + "\n" + "<<<END UNTRUSTED EXTERNAL CONTENT>>>")
  {
    first := ReplacingSwapsTheWord(value, BEGIN, Escaped(BEGIN));
    second := ReplacingSwapsTheWord(ReplaceAll(value, BEGIN, Escaped(BEGIN)), END, Escaped(END));
    TailsOfMarkers();
  }

  lemma TailsOfMarkers()
    ensures BEGIN[1..] == "<<BEGIN UNTRUSTED EXTERNAL CONTENT>>>" && END[1..] == "<<END UNTRUSTED EXTERNAL CONTENT>>>"
  {
  }
}
