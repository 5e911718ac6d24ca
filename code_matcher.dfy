/**
 * The voucher-code pattern (three groups of four upper-case letters or
 * digits joined by hyphens, with a word boundary on either side) and
 * `re.findall` over it.
 *
 * Every match of the pattern has exactly fourteen characters, so `findall`
 * is a left-to-right scanner: it tries a position, and on a match reports it
 * and resumes right after it, otherwise it moves one character on.
 */
module CodeMatcher {

  /** Number of characters in every code: three groups of four and two hyphens. */
  const CodeLength: nat := 14

  /** The ASCII characters that `\w` matches. */
  predicate IsAsciiWordChar(c: char) {
    ('a' <= c <= 'z') || ('A' <= c <= 'Z') || ('0' <= c <= '9') || c == '_'
  }

  /**
   * A classification of characters as word characters (`\w`) that agrees
   * with `[A-Za-z0-9_]` on ASCII. Which non-ASCII characters count (Unicode
   * letters and digits do in Python) is left open.
   */
  ghost predicate AgreesOnAscii(isWord: char -> bool) {
    forall c: char :: c as int < 128 ==> (isWord(c) <==> IsAsciiWordChar(c))
  }

  type WordClass = isWord: char -> bool | AgreesOnAscii(isWord) witness IsAsciiWordChar

  /** An upper-case ASCII letter or a digit: the pattern is case-sensitive. */
  predicate IsCodeChar(c: char) {
    ('A' <= c <= 'Z') || ('0' <= c <= '9')
  }

  /** One group: four code characters. */
  predicate IsGroup(g: string) {
    |g| == 4 && IsCodeChar(g[0]) && IsCodeChar(g[1]) && IsCodeChar(g[2]) && IsCodeChar(g[3])
  }

  /** Three groups joined by hyphens, filling the whole of `s`. */
  predicate IsCode(s: string) {
    |s| == CodeLength
    && IsGroup(s[..4]) && s[4] == '-'
    && IsGroup(s[5..9]) && s[9] == '-'
    && IsGroup(s[10..])
  }

  /**
   * `\b` at position `k` of `s`: exactly one of the two characters around `k`
   * is a word character, where a position outside the text counts as non-word.
   */
  predicate IsWordBoundary(isWord: WordClass, s: string, k: int)
    requires 0 <= k <= |s|
  {
    (0 < k && isWord(s[k - 1])) != (k < |s| && isWord(s[k]))
  }

  /** The whole pattern matches the fourteen characters of `s` starting at `i`. */
  predicate MatchesAt(isWord: WordClass, s: string, i: int) {
    0 <= i && i + CodeLength <= |s|
    && IsWordBoundary(isWord, s, i)
    && IsCode(s[i..i + CodeLength])
    && IsWordBoundary(isWord, s, i + CodeLength)
  }

  /** The pattern's match test at every position of `s`. */
  function PatternAt(isWord: WordClass, s: string): int -> bool {
    i => MatchesAt(isWord, s, i)
  }

  /**
   * The scan `re.findall` performs, over a text of `n` characters, for a
   * pattern all of whose matches are `CodeLength` characters long and which
   * matches at the positions where `matchesAt` holds: from position `from`,
   * it reports a match and resumes right after it, or moves on by one.
   */
  function ScanFrom(matchesAt: int -> bool, n: nat, from: nat): (offsets: seq<nat>)
    requires from <= n
    ensures forall k :: 0 <= k < |offsets| ==>
      from <= offsets[k] && offsets[k] + CodeLength <= n && matchesAt(offsets[k])
    ensures forall k, l :: 0 <= k < l < |offsets| ==> offsets[k] + CodeLength <= offsets[l]
    decreases n - from
  {
    if n - from < CodeLength then []
    else if matchesAt(from) then [from] + ScanFrom(matchesAt, n, from + CodeLength)
    else ScanFrom(matchesAt, n, from + 1)
  }

  /** Start offsets of the matches `re.findall(CODE_PATTERN, text)` reports. */
  function MatchOffsets(isWord: WordClass, text: string): (offsets: seq<nat>)
    ensures forall k :: 0 <= k < |offsets| ==> MatchesAt(isWord, text, offsets[k])
  {
    ScanFrom(PatternAt(isWord, text), |text|, 0)
  }

  /** `re.findall(CODE_PATTERN, text)`: the matched substrings, leftmost first. */
  function FindAll(isWord: WordClass, text: string): (codes: seq<string>)
    ensures forall k :: 0 <= k < |codes| ==> IsCode(codes[k])
  {
    var offsets := MatchOffsets(isWord, text);
    seq(|offsets|, k requires 0 <= k < |offsets| => text[offsets[k]..offsets[k] + CodeLength])
  }

  /**
   * What a leftmost, non-overlapping scan from `from` must report, stated
   * without reference to any scanning order: only matches at or after
   * `from`, in increasing order and pairwise disjoint, and every match at or
   * after `from` lies inside one of the reported ones.
   */
  ghost predicate IsLeftmostNonOverlapping(matchesAt: int -> bool, n: nat, from: nat, offsets: seq<nat>) {
    && (forall k :: 0 <= k < |offsets| ==>
          from <= offsets[k] && offsets[k] + CodeLength <= n && matchesAt(offsets[k]))
    && (forall k, l :: 0 <= k < l < |offsets| ==> offsets[k] + CodeLength <= offsets[l])
    && (forall j {:trigger Covers(offsets, j)} ::
          from <= j && j + CodeLength <= n && matchesAt(j) ==> Covers(offsets, j))
  }

  /** Position `j` lies inside one of the reported matches. */
  ghost predicate Covers(offsets: seq<nat>, j: int) {
    exists k :: 0 <= k < |offsets| && offsets[k] <= j < offsets[k] + CodeLength
  }

  /** Code shape spelled out position by position. */
  lemma {:induction false} CodeShape(s: string)
    ensures IsCode(s) <==>
      |s| == CodeLength
      && (forall i :: 0 <= i < |s| ==> if i == 4 || i == 9 then s[i] == '-' else IsCodeChar(s[i]))
  {
    if |s| == CodeLength && (forall i :: 0 <= i < |s| ==> if i == 4 || i == 9 then s[i] == '-' else IsCodeChar(s[i])) {
      assert s[..4][0] == s[0] && s[..4][1] == s[1] && s[..4][2] == s[2] && s[..4][3] == s[3];
      assert s[5..9][0] == s[5] && s[5..9][1] == s[6] && s[5..9][2] == s[7] && s[5..9][3] == s[8];
      assert s[10..][0] == s[10] && s[10..][1] == s[11] && s[10..][2] == s[12] && s[10..][3] == s[13];
    }
    if IsCode(s) {
      forall i | 0 <= i < |s|
        ensures if i == 4 || i == 9 then s[i] == '-' else IsCodeChar(s[i])
      {
        if i < 4 { assert s[i] == s[..4][i]; }
        else if 5 <= i < 9 { assert s[i] == s[5..9][i - 5]; }
        else if 10 <= i { assert s[i] == s[10..][i - 10]; }
      }
    }
  }

  /**
   * Given that code characters are word characters, `\b` on both sides of a
   * code means: the character before it, if any, and the character after it,
   * if any, are not word characters.
   */
  lemma {:induction false} MatchesAtIffNonWordNeighbours(isWord: WordClass, s: string, i: int)
    requires 0 <= i && i + CodeLength <= |s|
    ensures MatchesAt(isWord, s, i) <==>
      IsCode(s[i..i + CodeLength])
      && (i == 0 || !isWord(s[i - 1]))
      && (i + CodeLength == |s| || !isWord(s[i + CodeLength]))
  {
    var m := s[i..i + CodeLength];
    if IsCode(m) {
      assert s[i] == m[..4][0];
      assert s[i + CodeLength - 1] == m[10..][3];
      assert isWord(s[i]) && isWord(s[i + CodeLength - 1]);
    }
  }

  /** The scan from `from` reports a match covering every match at or after `from`. */
  lemma {:induction false} ScanComplete(matchesAt: int -> bool, n: nat, from: nat, j: int)
    requires from <= n
    requires from <= j && j + CodeLength <= n && matchesAt(j)
    ensures Covers(ScanFrom(matchesAt, n, from), j)
    decreases n - from
  {
    var offsets := ScanFrom(matchesAt, n, from);
    if matchesAt(from) {
      var rest := ScanFrom(matchesAt, n, from + CodeLength);
      assert offsets == [from] + rest;
      if j < from + CodeLength {
        assert offsets[0] <= j < offsets[0] + CodeLength;
      } else {
        ScanComplete(matchesAt, n, from + CodeLength, j);
        var k :| 0 <= k < |rest| && rest[k] <= j < rest[k] + CodeLength;
        assert offsets[k + 1] == rest[k];
      }
    } else {
      ScanComplete(matchesAt, n, from + 1, j);
    }
  }

  /** The scan meets the order-free description of leftmost, non-overlapping matching. */
  lemma {:induction false} ScanIsLeftmostNonOverlapping(matchesAt: int -> bool, n: nat, from: nat)
    requires from <= n
    ensures IsLeftmostNonOverlapping(matchesAt, n, from, ScanFrom(matchesAt, n, from))
  {
    var offsets := ScanFrom(matchesAt, n, from);
    forall j | from <= j && j + CodeLength <= n && matchesAt(j)
      ensures Covers(offsets, j)
    {
      ScanComplete(matchesAt, n, from, j);
    }
  }

  /** A leftmost, non-overlapping report that starts with a match at `from` goes on like one from past it. */
  lemma {:induction false} DropFirstMatch(matchesAt: int -> bool, n: nat, from: nat, offsets: seq<nat>)
    requires IsLeftmostNonOverlapping(matchesAt, n, from, offsets)
    requires from + CodeLength <= n && matchesAt(from)
    ensures offsets != [] && offsets[0] == from
    ensures IsLeftmostNonOverlapping(matchesAt, n, from + CodeLength, offsets[1..])
  {
    assert Covers(offsets, from);
    var k :| 0 <= k < |offsets| && offsets[k] <= from < offsets[k] + CodeLength;
    assert from <= offsets[0];
    assert k == 0;
    var rest := offsets[1..];
    forall j | from + CodeLength <= j && j + CodeLength <= n && matchesAt(j)
      ensures Covers(rest, j)
    {
      assert Covers(offsets, j);
      var l :| 0 <= l < |offsets| && offsets[l] <= j < offsets[l] + CodeLength;
      assert rest[l - 1] == offsets[l];
    }
  }

  /** ... and the scan is the only sequence of offsets that meets it. */
  lemma {:induction false} LeftmostNonOverlappingIsUnique(matchesAt: int -> bool, n: nat, from: nat, offsets: seq<nat>)
    requires from <= n
    requires IsLeftmostNonOverlapping(matchesAt, n, from, offsets)
    ensures offsets == ScanFrom(matchesAt, n, from)
    decreases n - from
  {
    if offsets != [] {
      assert from <= offsets[0] && offsets[0] + CodeLength <= n;
    }
    if n - from < CodeLength {
      assert offsets == [];
    } else if matchesAt(from) {
      DropFirstMatch(matchesAt, n, from, offsets);
      LeftmostNonOverlappingIsUnique(matchesAt, n, from + CodeLength, offsets[1..]);
      assert offsets == [from] + offsets[1..];
    } else {
      LeftmostNonOverlappingIsUnique(matchesAt, n, from + 1, offsets);
    }
  }

  /**
   * `findall` reports, in increasing order of position and without overlap,
   * the codes found in `text`, each bounded by non-word characters.
   */
  lemma {:induction false} FindAllReportsBoundedMatches(isWord: WordClass, text: string)
    ensures var offsets := MatchOffsets(isWord, text);
      && |FindAll(isWord, text)| == |offsets|
      && (forall k :: 0 <= k < |offsets| ==>
           && FindAll(isWord, text)[k] == text[offsets[k]..offsets[k] + CodeLength]
           && IsCode(FindAll(isWord, text)[k])
           && (offsets[k] == 0 || !isWord(text[offsets[k] - 1]))
           && (offsets[k] + CodeLength == |text| || !isWord(text[offsets[k] + CodeLength])))
      && forall k, l :: 0 <= k < l < |offsets| ==> offsets[k] + CodeLength <= offsets[l]
  {
    var offsets := MatchOffsets(isWord, text);
    forall k | 0 <= k < |offsets|
      ensures (offsets[k] == 0 || !isWord(text[offsets[k] - 1]))
           && (offsets[k] + CodeLength == |text| || !isWord(text[offsets[k] + CodeLength]))
    {
      MatchesAtIffNonWordNeighbours(isWord, text, offsets[k]);
    }
  }

  /** Text without a match yields the empty list, and only such text does. */
  lemma {:induction false} FindAllEmptyIffNoMatch(isWord: WordClass, text: string)
    ensures FindAll(isWord, text) == [] <==> forall j :: !MatchesAt(isWord, text, j)
  {
    var offsets := MatchOffsets(isWord, text);
    assert |FindAll(isWord, text)| == |offsets|;
    if offsets != [] {
      assert MatchesAt(isWord, text, offsets[0]);
    }
    forall j | MatchesAt(isWord, text, j)
      ensures offsets != []
    {
      ScanComplete(PatternAt(isWord, text), |text|, 0, j);
    }
  }

  /** Three groups joined by hyphens form a code. */
  lemma {:induction false} CodeLiteral(g1: string, g2: string, g3: string)
    requires IsGroup(g1) && IsGroup(g2) && IsGroup(g3)
    ensures IsCode(g1 + "-" + g2 + "-" + g3)
  {
    var s := g1 + "-" + g2 + "-" + g3;
    assert s[..4] == g1 && s[5..9] == g2 && s[10..] == g3;
  }

  /** A text that is exactly one code yields that code and nothing else. */
  lemma {:induction false} FindsLoneCode(isWord: WordClass, s: string)
    requires IsCode(s)
    ensures FindAll(isWord, s) == [s]
  {
    var p := PatternAt(isWord, s);
    MatchesAtIffNonWordNeighbours(isWord, s, 0);
    assert s[0..CodeLength] == s;
    assert ScanFrom(p, CodeLength, 0) == [0] + ScanFrom(p, CodeLength, CodeLength);
  }

  /** `WXYZ-1234-5678` on its own is found. */
  lemma {:induction false} FindsSampleCode(isWord: WordClass)
    ensures FindAll(isWord, "WXYZ-1234-5678") == ["WXYZ-1234-5678"]
  {
    CodeLiteral("WXYZ", "1234", "5678");
    FindsLoneCode(isWord, "WXYZ-1234-5678");
  }

  /** A hyphenated fourth group is not part of the code before it. */
  lemma {:induction false} DropsTrailingGroup(isWord: WordClass)
    ensures FindAll(isWord, "ABCD-1234-EFGH-IJKL") == ["ABCD-1234-EFGH"]
  {
    OverlappingMatchReportedOnce(isWord, "ABCD", "1234", "EFGH", "IJKL");
    assert "ABCD" + "-" + "1234" + "-" + "EFGH" + "-" + "IJKL" == "ABCD-1234-EFGH-IJKL";
    assert "ABCD" + "-" + "1234" + "-" + "EFGH" == "ABCD-1234-EFGH";
  }

  /** Matching is case-sensitive and needs three full groups. */
  lemma {:induction false} RejectsNearMatches(isWord: WordClass)
    ensures FindAll(isWord, "ab12-cd34-ef56") == []
    ensures FindAll(isWord, "AB12-CD34-EF5") == []
  {
    var s := "ab12-cd34-ef56";
    assert !IsCodeChar(s[..4][0]);
    assert !MatchesAt(isWord, s, 0);
    assert ScanFrom(PatternAt(isWord, s), 14, 0) == ScanFrom(PatternAt(isWord, s), 14, 1);
  }

  /** A code glued to a word character on either side is not a whole token. */
  lemma {:induction false} RejectsCodeInsideWord(isWord: WordClass)
    ensures FindAll(isWord, "xABCD-1234-EFGH") == []
    ensures FindAll(isWord, "ABCD-1234-EFGH_") == []
  {
    var s := "xABCD-1234-EFGH";
    assert s[0] == 'x' && s[1] == 'A' && isWord(s[0]) && isWord(s[1]);
    assert !MatchesAt(isWord, s, 0) && !MatchesAt(isWord, s, 1);
    var p := PatternAt(isWord, s);
    assert ScanFrom(p, 15, 0) == ScanFrom(p, 15, 1) == ScanFrom(p, 15, 2);
    var t := "ABCD-1234-EFGH_";
    assert t[13] == 'H' && t[14] == '_' && t[1] == 'B' && isWord(t[13]) && isWord(t[14]);
    assert !MatchesAt(isWord, t, 0) && !MatchesAt(isWord, t, 1);
    var q := PatternAt(isWord, t);
    assert ScanFrom(q, 15, 0) == ScanFrom(q, 15, 1) == ScanFrom(q, 15, 2);
  }

  /**
   * Four hyphen-joined groups hold two overlapping matches, at offsets 0 and
   * 5; only the leftmost is reported, and the fourth group is dropped.
   */
  lemma {:induction false} OverlappingMatchReportedOnce(isWord: WordClass, g1: string, g2: string, g3: string, g4: string)
    requires IsGroup(g1) && IsGroup(g2) && IsGroup(g3) && IsGroup(g4)
    ensures var s := g1 + "-" + g2 + "-" + g3 + "-" + g4;
      && MatchesAt(isWord, s, 0) && MatchesAt(isWord, s, 5)
      && FindAll(isWord, s) == [g1 + "-" + g2 + "-" + g3]
  {
    var s := g1 + "-" + g2 + "-" + g3 + "-" + g4;
    CodeLiteral(g1, g2, g3);
    CodeLiteral(g2, g3, g4);
    assert s[0..14] == g1 + "-" + g2 + "-" + g3;
    assert s[5..19] == g2 + "-" + g3 + "-" + g4;
    assert s[4] == '-' && s[14] == '-';
    assert !isWord(s[4]) && !isWord(s[14]);
    MatchesAtIffNonWordNeighbours(isWord, s, 0);
    MatchesAtIffNonWordNeighbours(isWord, s, 5);
    var p := PatternAt(isWord, s);
    assert ScanFrom(p, 19, 0) == [0] + ScanFrom(p, 19, 14);
  }
}
