/**
 * The JavaScript string operations that the verse markup relies on, written
 * out on `seq<char>`: `split("<br>")`, `join("<br>")`, `trim()`,
 * `replaceAll(pat, "")`, `replace(pat, rep)`, `includes`, `String(n)` and
 * ASCII case mapping. On top of them sits the one line decoder that all three
 * codec revisions share (`Decode`), and the facts about "plain" lines that the
 * round-trip proofs of the codecs need.
 */
module Markup {

  /** The delimiter between the lines of a verse. */
  const Br: string := "<br>"
  /** The emphasis marker around the first sung character of a line. */
  const BoldOpen: string := "<b>"
  const BoldClose: string := "</b>"

  /** The class `[A-Za-z]`. */
  predicate IsAsciiLetter(c: char) {
    'A' <= c <= 'Z' || 'a' <= c <= 'z'
  }

  /** The class `\d`. */
  predicate IsDigit(c: char) {
    '0' <= c <= '9'
  }

  /** The characters `String.prototype.trim` removes: WhiteSpace and LineTerminator. */
  predicate IsSpace(c: char) {
    || c == ' ' || c == '\t' || c == '\n' || c == '\r'
    || c == '\U{000B}' || c == '\U{000C}' || c == '\U{00A0}' || c == '\U{1680}'
    || ('\U{2000}' <= c <= '\U{200A}')
    || c == '\U{2028}' || c == '\U{2029}' || c == '\U{202F}' || c == '\U{205F}'
    || c == '\U{3000}' || c == '\U{FEFF}'
  }

  // ---------------------------------------------------------------- case

  /** `toUpperCase` on one character, restricted to the ASCII letters. */
  function Upper(c: char): (u: char)
    ensures IsAsciiLetter(u) <==> IsAsciiLetter(c)
    ensures IsSpace(u) <==> IsSpace(c)
    ensures (u == '<') <==> (c == '<')
    ensures !('a' <= u <= 'z')
  {
    if 'a' <= c <= 'z' then (c as int - 32) as char else c
  }

  /** `toLowerCase` on one character, restricted to the ASCII letters. */
  function Lower(c: char): (l: char)
    ensures !('A' <= l <= 'Z')
    ensures IsAsciiLetter(l) <==> IsAsciiLetter(c)
  {
    if 'A' <= c <= 'Z' then (c as int + 32) as char else c
  }

  function LowerAll(s: string): (r: string)
    ensures |r| == |s|
    ensures forall k :: 0 <= k < |s| ==> r[k] == Lower(s[k])
  {
    seq(|s|, k requires 0 <= k < |s| => Lower(s[k]))
  }

  /** `s.startsWith(pat)`: the first `|pat|` characters of `s` are `pat`. */
  predicate StartsWith(s: string, pat: string) {
    |pat| <= |s| && s[..|pat|] == pat
  }

  /** `s.includes(sub)`: `sub` occurs in `s` at some position. */
  predicate Contains(s: string, sub: string)
    decreases |s|
  {
    StartsWith(s, sub) || (|s| > 0 && Contains(s[1..], sub))
  }

  // ---------------------------------------------------------------- trim

  function TrimStart(s: string): (t: string)
    ensures |t| <= |s| && t == s[|s| - |t|..]
    ensures |t| == 0 || !IsSpace(t[0])
    ensures forall k :: 0 <= k < |s| - |t| ==> IsSpace(s[k])
    decreases |s|
  {
    if |s| > 0 && IsSpace(s[0]) then TrimStart(s[1..]) else s
  }

  function TrimEnd(s: string): (t: string)
    ensures |t| <= |s| && t == s[..|t|]
    ensures |t| == 0 || !IsSpace(t[|t| - 1])
    ensures forall k :: |t| <= k < |s| ==> IsSpace(s[k])
    decreases |s|
  {
    if |s| > 0 && IsSpace(s[|s| - 1]) then TrimEnd(s[..|s| - 1]) else s
  }

  /** Neither end of `s` is whitespace. */
  predicate IsTrimmed(s: string) {
    |s| == 0 || (!IsSpace(s[0]) && !IsSpace(s[|s| - 1]))
  }

  /** `t` is the infix `s[i..j]`, and everything of `s` outside it is whitespace. */
  predicate TrimsTo(s: string, t: string, i: int, j: int) {
    0 <= i <= j <= |s| && t == s[i..j] &&
    (forall k :: 0 <= k < i ==> IsSpace(s[k])) &&
    (forall k :: j <= k < |s| ==> IsSpace(s[k]))
  }

  /** `s.trim()`: the longest infix of `s` that starts and ends with non-whitespace. */
  function Trim(s: string): (t: string)
    ensures IsTrimmed(t)
    ensures IsTrimmed(s) ==> t == s
    ensures exists i, j :: TrimsTo(s, t, i, j)
    ensures forall c :: c in t ==> c in s
    ensures |t| == 0 <==> forall k :: 0 <= k < |s| ==> IsSpace(s[k])
  {
    var front := TrimStart(s);
    var t := TrimEnd(front);
    var i := |s| - |front|;
    assert TrimsTo(s, t, i, i + |t|);
    assert forall c :: c in t ==> c in front;
    assert forall c :: c in front ==> c in s;
    t
  }

  // ---------------------------------------------------------------- split / join

  /** An occurrence of `<br>` starts at index `i` of `s`. */
  predicate IsBreakAt(s: string, i: int) {
    0 <= i && i + 4 <= |s| && s[i] == '<' && s[i + 1] == 'b' && s[i + 2] == 'r' && s[i + 3] == '>'
  }

  /** `s` holds no `<br>`. */
  predicate NoBreak(s: string) {
    forall i | 0 <= i < |s| :: !IsBreakAt(s, i)
  }

  /** The number of `<br>` occurrences found scanning left to right. */
  function BreakCount(s: string): nat
    decreases |s|
  {
    if |s| == 0 then 0
    else if IsBreakAt(s, 0) then 1 + BreakCount(s[4..])
    else BreakCount(s[1..])
  }

  /** `s.split("<br>")`: one piece per delimiter plus one, none holding a delimiter. */
  function Segments(s: string): (segs: seq<string>)
    ensures |segs| == BreakCount(s) + 1
    ensures segs[0] <= s
    ensures forall k :: 0 <= k < |segs| ==> NoBreak(segs[k])
    decreases |s|
  {
    if |s| == 0 then [""]
    else if IsBreakAt(s, 0) then [""] + Segments(s[4..])
    else
      var rest := Segments(s[1..]);
      var first := [s[0]] + rest[0];
      assert first <= s;
      assert NoBreak(first) by {
        forall i ensures !IsBreakAt(first, i) {
          if i == 0 {
            assert !IsBreakAt(s, 0);
          } else {
            assert IsBreakAt(first, i) ==> IsBreakAt(rest[0], i - 1);
          }
        }
      }
      [first] + rest[1..]
  }

  /** `lines.join("<br>")`. */
  function JoinBr(lines: seq<string>): string
    decreases |lines|
  {
    if |lines| == 0 then ""
    else if |lines| == 1 then lines[0]
    else lines[0] + Br + JoinBr(lines[1..])
  }

  /** Joining the pieces of a split gives back the string. */
  lemma {:induction false} JoinSegments(s: string)
    ensures JoinBr(Segments(s)) == s
    decreases |s|
  {
    if |s| == 0 {
    } else if IsBreakAt(s, 0) {
      JoinSegments(s[4..]);
      JoinBrEmptyHead(Segments(s[4..]));
      assert s == Br + s[4..];
    } else {
      var rest := Segments(s[1..]);
      JoinSegments(s[1..]);
      assert Segments(s) == [[s[0]] + rest[0]] + rest[1..];
      JoinBrCharHead(s[0], rest);
      assert s == [s[0]] + s[1..];
    }
  }

  /** An empty first piece joins as a leading `<br>`. */
  lemma JoinBrEmptyHead(lines: seq<string>)
    requires |lines| > 0
    ensures JoinBr([""] + lines) == Br + JoinBr(lines)
  {
    assert ([""] + lines)[1..] == lines;
    EmptyFront(Br, JoinBr(lines));
  }

  lemma EmptyFront(b: string, t: string)
    ensures "" + b + t == b + t
  {
  }

  /** A character put in front of the first piece comes out in front of the join. */
  lemma JoinBrCharHead(c: char, lines: seq<string>)
    requires |lines| > 0
    ensures JoinBr([[c] + lines[0]] + lines[1..]) == [c] + JoinBr(lines)
  {
    var ls := [[c] + lines[0]] + lines[1..];
    assert ls[1..] == lines[1..];
    if |lines| > 1 {
      ConsAssoc(c, lines[0], Br, JoinBr(lines[1..]));
    }
  }

  lemma ConsAssoc(c: char, x: string, b: string, t: string)
    ensures ([c] + x) + b + t == [c] + (x + b + t)
  {
  }

  /** A piece without `<br>` followed by the delimiter splits off as exactly that piece. */
  lemma {:induction false} SegmentsCons(x: string, rest: string)
    requires NoBreak(x)
    ensures Segments(x + Br + rest) == [x] + Segments(rest)
    decreases |x|
  {
    var s := x + Br + rest;
    if |x| == 0 {
      assert s == Br + rest;
      assert IsBreakAt(s, 0);
      assert s[4..] == rest;
    } else {
      assert s[|x|] == '<';
      if |x| >= 4 {
        assert !IsBreakAt(x, 0);
        assert s[..4] == x[..4];
      }
      assert !IsBreakAt(s, 0);
      assert NoBreak(x[1..]) by {
        forall i ensures !IsBreakAt(x[1..], i) {
          assert IsBreakAt(x[1..], i) ==> IsBreakAt(x, i + 1);
        }
      }
      SegmentsCons(x[1..], rest);
      assert s[1..] == x[1..] + Br + rest;
      assert [s[0]] + x[1..] == x;
    }
  }

  /** A string without `<br>` splits into itself alone. */
  lemma {:induction false} SegmentsSingle(x: string)
    requires NoBreak(x)
    ensures Segments(x) == [x]
    decreases |x|
  {
    if |x| > 0 {
      assert !IsBreakAt(x, 0);
      assert NoBreak(x[1..]) by {
        forall i ensures !IsBreakAt(x[1..], i) {
          assert IsBreakAt(x[1..], i) ==> IsBreakAt(x, i + 1);
        }
      }
      SegmentsSingle(x[1..]);
      assert [x[0]] + x[1..] == x;
    }
  }

  /** Splitting a join of break-free lines gives back the lines, so the join has |lines| - 1 breaks. */
  lemma {:induction false} SegmentsOfJoin(lines: seq<string>)
    requires |lines| >= 1
    requires forall k :: 0 <= k < |lines| ==> NoBreak(lines[k])
    ensures Segments(JoinBr(lines)) == lines
    ensures BreakCount(JoinBr(lines)) == |lines| - 1
    decreases |lines|
  {
    if |lines| == 1 {
      SegmentsSingle(lines[0]);
    } else {
      SegmentsOfJoin(lines[1..]);
      SegmentsCons(lines[0], JoinBr(lines[1..]));
      assert [lines[0]] + lines[1..] == lines;
    }
  }

  /** A string with no `<` holds no `<br>`. */
  lemma NoLtNoBreak(s: string)
    requires '<' !in s
    ensures NoBreak(s)
  {
    forall i | 0 <= i < |s| ensures !IsBreakAt(s, i) {
      assert s[i] in s;
    }
  }

  // ---------------------------------------------------------------- replace

  /**
   * `s.indexOf(pat)`: the position of the first occurrence of `pat`, or -1
   * when there is none.
   */
  function IndexOf(s: string, pat: string): (i: int)
    requires |pat| > 0
    ensures -1 <= i <= |s|
    ensures i == -1 <==> !Contains(s, pat)
    ensures i >= 0 ==> i + |pat| <= |s| && s[i..i + |pat|] == pat
    decreases |s|
  {
    if StartsWith(s, pat) then 0
    else if |s| == 0 then -1
    else
      var k := IndexOf(s[1..], pat);
      assert k >= 0 ==> s[1..][k..k + |pat|] == s[k + 1..k + 1 + |pat|];
      if k < 0 then -1 else k + 1
  }

  /** No occurrence comes before the one `IndexOf` finds. */
  lemma {:induction false} IndexOfIsFirst(s: string, pat: string, j: nat)
    requires |pat| > 0 && j <= |s| && StartsWith(s[j..], pat)
    ensures 0 <= IndexOf(s, pat) <= j
    decreases |s|
  {
    if !(StartsWith(s, pat)) {
      assert j > 0 && s[1..][j - 1..] == s[j..];
      IndexOfIsFirst(s[1..], pat, j - 1);
    }
  }

  /** `s.replaceAll(pat, "")`: every non-overlapping occurrence, left to right, removed. */
  function RemoveAll(s: string, pat: string): (r: string)
    requires |pat| > 0
    ensures |r| <= |s|
    decreases |s|
  {
    if |s| == 0 then s
    else if StartsWith(s, pat) then RemoveAll(s[|pat|..], pat)
    else [s[0]] + RemoveAll(s[1..], pat)
  }

  /**
   * Text without the pattern is left as it is, and text with it loses at
   * least one whole occurrence.
   */
  lemma {:induction false} RemoveAllAbsent(s: string, pat: string)
    requires |pat| > 0
    ensures !Contains(s, pat) ==> RemoveAll(s, pat) == s
    ensures Contains(s, pat) ==> |RemoveAll(s, pat)| <= |s| - |pat|
    decreases |s|
  {
    if |s| > 0 && !(StartsWith(s, pat)) {
      RemoveAllAbsent(s[1..], pat);
      assert RemoveAll(s, pat) == [s[0]] + RemoveAll(s[1..], pat);
      assert !Contains(s, pat) ==> !Contains(s[1..], pat);
      assert s == [s[0]] + s[1..];
    }
  }

  /** Without an occurrence at the front, the scan goes on in the tail. */
  lemma IndexOfPastFront(s: string, pat: string)
    requires |pat| > 0 && |s| > 0 && !(StartsWith(s, pat))
    ensures IndexOf(s, pat) == if IndexOf(s[1..], pat) < 0 then -1 else IndexOf(s[1..], pat) + 1
  {
  }

  /** Cutting a string around position `k + 1` is cutting its tail around `k`, with the head in front. */
  lemma CutAfterHead(s: string, k: nat, m: nat)
    requires |s| > 0 && k + m <= |s| - 1
    ensures s[..k + 1] == [s[0]] + s[1..][..k]
    ensures s[k + 1 + m..] == s[1..][k + m..]
  {
  }

  /** `pat` occurs in `s` starting at position `j`. */
  predicate OccursAt(s: string, pat: string, j: nat) {
    j <= |s| && StartsWith(s[j..], pat)
  }

  /** No position of `s` before `i` holds the pattern, read one position at a time. */
  predicate NoneBefore(s: string, pat: string, i: nat)
    decreases i
  {
    i == 0 || (|s| > 0 && !StartsWith(s, pat) && NoneBefore(s[1..], pat, i - 1))
  }

  /** `NoneBefore` says what it should: within `s`, no position before `i` holds the pattern. */
  lemma {:induction false} NoneBeforeMeans(s: string, pat: string, i: nat)
    requires i <= |s|
    ensures NoneBefore(s, pat, i) <==> forall j :: 0 <= j < i ==> !OccursAt(s, pat, j)
    decreases i
  {
    if i > 0 {
      NoneBeforeMeans(s[1..], pat, i - 1);
      assert s[0..] == s;
      assert forall j :: 0 <= j < i - 1 ==> s[1..][j..] == s[j + 1..];
      if forall j :: 0 <= j < i ==> !OccursAt(s, pat, j) {
        assert !OccursAt(s, pat, 0);
        forall j | 0 <= j < i - 1 ensures !OccursAt(s[1..], pat, j) {
          assert !OccursAt(s, pat, j + 1);
        }
      }
      if NoneBefore(s, pat, i) {
        forall j | 0 <= j < i ensures !OccursAt(s, pat, j) {
          if j > 0 {
            assert !OccursAt(s[1..], pat, j - 1);
          }
        }
      }
    }
  }

  /** The position `IndexOf` finds holds the pattern, and no earlier position does. */
  lemma {:induction false} IndexOfFirstOccurrence(s: string, pat: string)
    requires |pat| > 0 && Contains(s, pat)
    ensures 0 <= IndexOf(s, pat) && OccursAt(s, pat, IndexOf(s, pat))
    ensures NoneBefore(s, pat, IndexOf(s, pat))
    decreases |s|
  {
    if StartsWith(s, pat) {
      assert s[0..] == s;
    } else {
      IndexOfPastFront(s, pat);
      IndexOfFirstOccurrence(s[1..], pat);
      var k := IndexOf(s[1..], pat);
      assert s[1..][k..] == s[k + 1..];
    }
  }

  /**
   * The scan of `replaceAll` from the first occurrence on: when `i` is the
   * first position holding the pattern, everything before it is kept, the
   * occurrence goes, and the scan resumes right after it.
   */
  lemma {:induction false} RemoveAllUpTo(s: string, pat: string, i: nat)
    requires |pat| > 0 && OccursAt(s, pat, i) && NoneBefore(s, pat, i)
    ensures i + |pat| <= |s|
    ensures RemoveAll(s, pat) == s[..i] + RemoveAll(s[i + |pat|..], pat)
    decreases i, 1
  {
    if i == 0 {
      assert s[0..] == s && s[..0] == [];
    } else {
      RemoveAllPastHead(s, pat, i);
    }
  }

  /** `RemoveAllUpTo` past a first character that does not start an occurrence: the tail's split, shifted by one. */
  lemma {:induction false} RemoveAllPastHead(s: string, pat: string, i: nat)
    requires |pat| > 0 && i > 0 && OccursAt(s, pat, i) && NoneBefore(s, pat, i)
    ensures i + |pat| <= |s|
    ensures RemoveAll(s, pat) == s[..i] + RemoveAll(s[i + |pat|..], pat)
    decreases i, 0
  {
    var t, k := s[1..], i - 1;
    assert OccursAt(t, pat, k) by {
      assert t[k..] == s[i..];
    }
    RemoveAllUpTo(t, pat, k);
    var x := RemoveAll(s[i + |pat|..], pat);
    assert t[k + |pat|..] == s[i + |pat|..] && s[..i] == [s[0]] + t[..k] by {
      CutAfterHead(s, k, |pat|);
    }
    RemoveAllStep(s, pat);
    Regroup(s[0], t[..k], x, s[..i]);
  }

  /** Without an occurrence at the front, the first character is kept. */
  lemma RemoveAllStep(s: string, pat: string)
    requires |pat| > 0 && |s| > 0 && !(StartsWith(s, pat))
    ensures RemoveAll(s, pat) == [s[0]] + RemoveAll(s[1..], pat)
  {
  }

  lemma Regroup(c: char, front: string, x: string, head: string)
    requires head == [c] + front
    ensures [c] + (front + x) == head + x
  {
  }

  /** Replacing at position `k` of the tail is replacing at position `k + 1` of the whole. */
  lemma ReplaceShift(s: string, k: nat, m: nat, rep: string)
    requires |s| > 0 && k + m <= |s| - 1
    ensures [s[0]] + (s[1..][..k] + rep + s[1..][k + m..]) == s[..k + 1] + rep + s[k + 1 + m..]
  {
    CutAfterHead(s, k, m);
    var t := s[1..];
    assert [s[0]] + (t[..k] + rep + t[k + m..]) == ([s[0]] + t[..k]) + rep + t[k + m..];
  }

  /**
   * `s.replace(pat, rep)` with a string pattern: the first occurrence, and
   * only that one, is replaced; without an occurrence nothing changes.
   */
  function ReplaceFirst(s: string, pat: string, rep: string): (r: string)
    requires |pat| > 0
    ensures IndexOf(s, pat) < 0 ==> r == s
    ensures IndexOf(s, pat) >= 0 ==>
              r == s[..IndexOf(s, pat)] + rep + s[IndexOf(s, pat) + |pat|..]
    decreases |s|
  {
    if StartsWith(s, pat) then
      assert s[..0] + rep == rep;
      rep + s[|pat|..]
    else if |s| == 0 then s
    else
      var rest := ReplaceFirst(s[1..], pat, rep);
      if Contains(s, pat) then
        IndexOfPastFront(s, pat);
        ReplaceAt(s, rep, rest, IndexOf(s[1..], pat), |pat|, IndexOf(s, pat));
        [s[0]] + rest
      else
        ReplaceStepAbsent(s, pat, rest);
        [s[0]] + rest
  }

  /** A pattern at the front is the one replaced; text without the pattern is returned as it is. */
  lemma ReplaceFirstEdges(s: string, pat: string, rep: string)
    requires |pat| > 0
    ensures StartsWith(s, pat) ==> ReplaceFirst(s, pat, rep) == rep + s[|pat|..]
    ensures !Contains(s, pat) ==> ReplaceFirst(s, pat, rep) == s
  {
    if StartsWith(s, pat) {
      assert s[..0] + rep == rep;
    }
  }

  /** `ReplaceShift` with the position in the whole named. */
  lemma ReplaceAt(s: string, rep: string, rest: string, k: nat, m: nat, i: nat)
    requires |s| > 0 && k + m <= |s| - 1 && i == k + 1
    requires rest == s[1..][..k] + rep + s[1..][k + m..]
    ensures [s[0]] + rest == s[..i] + rep + s[i + m..]
  {
    ReplaceShift(s, k, m, rep);
  }

  /** Without the pattern anywhere, the tail is kept and so is the whole. */
  lemma ReplaceStepAbsent(s: string, pat: string, rest: string)
    requires |pat| > 0 && |s| > 0 && !Contains(s, pat)
    requires !Contains(s[1..], pat) ==> rest == s[1..]
    ensures !Contains(s[1..], pat) && [s[0]] + rest == s
  {
    assert s == [s[0]] + s[1..];
  }

  /** A one-character pattern occurs exactly when the character does. */
  lemma {:induction false} ContainsChar(s: string, c: char)
    ensures Contains(s, [c]) <==> c in s
    decreases |s|
  {
    if |s| > 0 {
      ContainsChar(s[1..], c);
      assert s == [s[0]] + s[1..];
    }
  }

  /** A pattern starting with `<` does not occur in text without `<`. */
  lemma {:induction false} NoLtNotContains(s: string, pat: string)
    requires |pat| > 0 && pat[0] == '<'
    requires '<' !in s
    ensures !Contains(s, pat)
    decreases |s|
  {
    if |s| > 0 {
      assert !(StartsWith(s, pat)) by { assert s[0] != '<'; }
      assert '<' !in s[1..] by { assert forall c :: c in s[1..] ==> c in s; }
      NoLtNotContains(s[1..], pat);
    }
  }

  /** A marker starts with `<`, so removing it from text without `<` changes nothing. */
  lemma {:induction false} RemoveAllNoLt(s: string, pat: string)
    requires |pat| > 0 && pat[0] == '<'
    requires '<' !in s
    ensures RemoveAll(s, pat) == s
    decreases |s|
  {
    if |s| > 0 {
      assert !(StartsWith(s, pat)) by { assert s[0] != '<'; }
      RemoveAllNoLt(s[1..], pat);
      assert [s[0]] + s[1..] == s;
    }
  }

  /** Removal passes over a prefix without `<` untouched. */
  lemma {:induction false} RemoveAllAfterPlain(x: string, t: string, pat: string)
    requires |pat| > 0 && pat[0] == '<'
    requires '<' !in x
    ensures RemoveAll(x + t, pat) == x + RemoveAll(t, pat)
    decreases |x|
  {
    if |x| > 0 {
      var s := x + t;
      assert s[0] == x[0] && x[0] != '<';
      assert !(StartsWith(s, pat));
      assert s[1..] == x[1..] + t;
      RemoveAllAfterPlain(x[1..], t, pat);
      assert [x[0]] + x[1..] == x;
    } else {
      assert x + t == t;
    }
  }

  // ---------------------------------------------------------------- decode

  /** Both marker removals of the decoder, `<b>` first and then `</b>`. */
  function StripMarkers(s: string): string {
    RemoveAll(RemoveAll(s, BoldOpen), BoldClose)
  }

  /**
   * `splitByBreakLine`, the same text in all three codec revisions: split on
   * `<br>`, trim each piece, then remove every `<b>` and every `</b>`.
   */
  function Decode(html: string): (lines: seq<string>)
    ensures |lines| == BreakCount(html) + 1
    ensures |lines| > 0
  {
    Clean(Segments(html))
  }

  /** Each `<br>`-separated piece trimmed and stripped of every `<b>` and `</b>`, in order. */
  function Clean(segs: seq<string>): seq<string> {
    MapSeq(CleanPiece, segs)
  }

  /** One piece of `splitByBreakLine`: trimmed, then every `<b>` and then every `</b>` removed. */
  function CleanPiece(seg: string): string {
    StripMarkers(Trim(seg))
  }

  /** `xs.map(f)`. */
  function MapSeq<A, B>(f: A -> B, xs: seq<A>): (ys: seq<B>)
    ensures |ys| == |xs|
    ensures forall k :: 0 <= k < |xs| ==> ys[k] == f(xs[k])
  {
    seq(|xs|, k requires 0 <= k < |xs| => f(xs[k]))
  }

  /** Mapping over a list with a head is mapping the head, then the rest. */
  lemma MapCons<A, B>(f: A -> B, x: A, xs: seq<A>)
    ensures MapSeq(f, [x] + xs) == [f(x)] + MapSeq(f, xs)
  {
    var lhs, rhs := MapSeq(f, [x] + xs), [f(x)] + MapSeq(f, xs);
    forall k | 0 <= k < |lhs| ensures lhs[k] == rhs[k] {
      if k > 0 {
        assert ([x] + xs)[k] == xs[k - 1];
      }
    }
  }

  /** Cleaning a leading piece and the rest separately is cleaning them together. */
  lemma CleanCons(x: string, segs: seq<string>)
    ensures Clean([x] + segs) == [StripMarkers(Trim(x))] + Clean(segs)
  {
    MapCons(CleanPiece, x, segs);
  }

  /** Text without `<` passes the decoder as a plain trim. */
  lemma CleanNoLt(seg: string)
    requires '<' !in seg
    ensures StripMarkers(Trim(seg)) == Trim(seg)
  {
    var t := Trim(seg);
    assert '<' !in t;
    RemoveAllNoLt(t, BoldOpen);
    RemoveAllNoLt(t, BoldClose);
  }

  /** A line the codecs can carry unchanged: non-empty, no `<`, no surrounding whitespace. */
  predicate IsPlainLine(l: string) {
    |l| > 0 && '<' !in l && IsTrimmed(l)
  }

  /** `l` with its character at index `k` wrapped in the emphasis marker. */
  function Wrap(l: string, k: nat): string
    requires k < |l|
  {
    l[..k] + BoldOpen + [l[k]] + BoldClose + l[k + 1..]
  }

  lemma RemoveOpenAtFront(t: string)
    ensures RemoveAll(BoldOpen + t, BoldOpen) == RemoveAll(t, BoldOpen)
  {
    assert (BoldOpen + t)[3..] == t;
  }

  lemma RemoveCloseAtFront(t: string)
    ensures RemoveAll(BoldClose + t, BoldClose) == RemoveAll(t, BoldClose)
  {
    assert (BoldClose + t)[4..] == t;
  }

  /** `</b>` is not `<b>`: removing `<b>` leaves a closing marker and plain text alone. */
  lemma OpenSkipsClose(t: string)
    requires '<' !in t
    ensures RemoveAll(BoldClose + t, BoldOpen) == BoldClose + t
  {
    var s := BoldClose + t;
    assert !StartsWith(s, BoldOpen) by { assert s[1] == '/'; }
    assert s[1..] == "/b>" + t;
    RemoveAllNoLt("/b>" + t, BoldOpen);
    assert [s[0]] + s[1..] == s;
  }

  /** Removing `<b>` from `head <b>c</b>tail` leaves `head c</b>tail`. */
  lemma StripOpenParts(head: string, c: string, tail: string)
    requires '<' !in head && '<' !in c && '<' !in tail
    ensures RemoveAll(head + (BoldOpen + (c + (BoldClose + tail))), BoldOpen) == (head + c) + (BoldClose + tail)
  {
    var closed := BoldClose + tail;
    RemoveAllAfterPlain(head, BoldOpen + (c + closed), BoldOpen);
    RemoveOpenAtFront(c + closed);
    RemoveAllAfterPlain(c, closed, BoldOpen);
    OpenSkipsClose(tail);
    assert head + (c + closed) == (head + c) + closed;
  }

  /** Removing `</b>` from `front</b>tail` leaves `front tail`. */
  lemma StripCloseParts(front: string, tail: string)
    requires '<' !in front && '<' !in tail
    ensures RemoveAll(front + (BoldClose + tail), BoldClose) == front + tail
  {
    RemoveAllAfterPlain(front, BoldClose + tail, BoldClose);
    RemoveCloseAtFront(tail);
    RemoveAllNoLt(tail, BoldClose);
  }

  /** Removing the markers from a wrapped line gives the line back. */
  lemma StripWrap(l: string, k: nat)
    requires k < |l| && '<' !in l
    ensures StripMarkers(Wrap(l, k)) == l
  {
    var head, c, tail := l[..k], [l[k]], l[k + 1..];
    assert l == head + c + tail;
    assert '<' !in head && '<' !in c && '<' !in tail;
    assert Wrap(l, k) == head + (BoldOpen + (c + (BoldClose + tail)));
    StripOpenParts(head, c, tail);
    assert '<' !in head + c;
    StripCloseParts(head + c, tail);
  }

  /** Text between an opening and a closing marker decodes to itself and holds no `<br>`. */
  lemma EnclosedFacts(x: string)
    requires '<' !in x
    ensures StripMarkers(BoldOpen + x + BoldClose) == x
    ensures NoBreak(BoldOpen + x + BoldClose)
  {
    StripOpenParts("", x, "");
    assert "" + (BoldOpen + (x + (BoldClose + ""))) == BoldOpen + x + BoldClose;
    assert ("" + x) + (BoldClose + "") == x + (BoldClose + "");
    StripCloseParts(x, "");
    var w := BoldOpen + x + BoldClose;
    forall i | 0 <= i < |w| ensures !IsBreakAt(w, i) {
      if i == 0 {
        assert w[2] == '>';
      } else if i < 3 {
        assert w[i] != '<';
      } else if i < 3 + |x| {
        assert w[i] == x[i - 3] && x[i - 3] in x;
      } else if i == 3 + |x| {
        assert w[i + 1] == '/';
      } else {
        assert w[i] != '<';
      }
    }
  }

  /** A single enclosed piece of text decodes to that text alone. */
  lemma DecodeEnclosed(x: string)
    requires '<' !in x
    ensures Decode(BoldOpen + x + BoldClose) == [x]
  {
    var e := BoldOpen + x + BoldClose;
    EnclosedFacts(x);
    SegmentsSingle(e);
    assert IsTrimmed(e);
  }

  /** A leading piece without `<br>` decodes on its own, ahead of the rest. */
  lemma DecodeCons(x: string, rest: string)
    requires NoBreak(x)
    ensures Decode(x + Br + rest) == [StripMarkers(Trim(x))] + Decode(rest)
  {
    SegmentsCons(x, rest);
    CleanCons(x, Segments(rest));
  }

  /** A labelled verse `<b>tag</b><br>body` decodes to the tag followed by the body's lines. */
  lemma DecodeLabelled(tag: string, body: string)
    requires '<' !in tag
    ensures Decode(BoldOpen + tag + BoldClose + Br + body) == [tag] + Decode(body)
  {
    var e := BoldOpen + tag + BoldClose;
    EnclosedFacts(tag);
    assert IsTrimmed(e);
    DecodeCons(e, body);
  }

  /** A suffix of a string without `<br>` has none either. */
  lemma NoBreakSuffix(s: string, j: nat)
    requires NoBreak(s) && j <= |s|
    ensures NoBreak(s[j..])
  {
    forall i | 0 <= i < |s[j..]| ensures !IsBreakAt(s[j..], i) {
      assert IsBreakAt(s[j..], i) ==> IsBreakAt(s, i + j);
    }
  }

  /** Text without `<` in front of a string without `<br>` creates no `<br>`. */
  lemma NoBreakAfterPlain(a: string, b: string)
    requires '<' !in a && NoBreak(b)
    ensures NoBreak(a + b)
  {
    var w := a + b;
    forall i | 0 <= i < |w| ensures !IsBreakAt(w, i) {
      if i < |a| {
        assert w[i] == a[i] && a[i] in a;
      } else {
        assert IsBreakAt(w, i) ==> IsBreakAt(b, i - |a|);
      }
    }
  }

  /** `<b>` in front of a string without `<br>` creates no `<br>`. */
  lemma NoBreakAfterOpen(b: string)
    requires NoBreak(b)
    ensures NoBreak(BoldOpen + b)
  {
    var w := BoldOpen + b;
    forall i | 0 <= i < |w| ensures !IsBreakAt(w, i) {
      if i == 0 {
        assert w[2] == '>';
      } else if i < 3 {
        assert w[i] != '<';
      } else {
        assert IsBreakAt(w, i) ==> IsBreakAt(b, i - 3);
      }
    }
  }

  /** `</b>` in front of a string without `<br>` creates no `<br>`. */
  lemma NoBreakAfterClose(b: string)
    requires NoBreak(b)
    ensures NoBreak(BoldClose + b)
  {
    var w := BoldClose + b;
    forall i | 0 <= i < |w| ensures !IsBreakAt(w, i) {
      if i == 0 {
        assert w[1] == '/';
      } else if i < 4 {
        assert w[i] != '<';
      } else {
        assert IsBreakAt(w, i) ==> IsBreakAt(b, i - 4);
      }
    }
  }

  /** A wrapped line holds no `<br>`: its only `<` start `<b>` and `</b>`. */
  lemma WrapNoBreak(l: string, k: nat)
    requires k < |l| && '<' !in l
    ensures NoBreak(Wrap(l, k))
  {
    var w := Wrap(l, k);
    assert |w| == |l| + 7;
    forall i | 0 <= i < |w| ensures !IsBreakAt(w, i) {
      if i < k {
        assert w[i] == l[i] && l[i] in l;
      } else if i == k {
        assert i + 2 < |w| && w[i + 2] == '>';
      } else if i < k + 3 {
        assert w[i] == 'b' || w[i] == '>';
      } else if i == k + 3 {
        assert w[i] == l[k] && l[k] in l;
      } else if i == k + 4 {
        assert w[i + 1] == '/';
      } else if i < k + 8 {
        assert w[i] == '/' || w[i] == 'b' || w[i] == '>';
      } else {
        assert w[i] == l[i - 7] && l[i - 7] in l;
      }
    }
  }

  /** Wrapping keeps a trimmed non-empty line trimmed. */
  lemma WrapTrimmed(l: string, k: nat)
    requires k < |l| && IsTrimmed(l)
    ensures IsTrimmed(Wrap(l, k))
  {
    var w := Wrap(l, k);
    assert w[0] == if k == 0 then '<' else l[0];
    assert w[|w| - 1] == if k == |l| - 1 then '>' else l[|l| - 1];
  }

  /** Decoding a wrapped plain line gives the line back. */
  lemma DecodeWrap(l: string, k: nat)
    requires k < |l| && IsPlainLine(l)
    ensures StripMarkers(Trim(Wrap(l, k))) == l
  {
    WrapTrimmed(l, k);
    StripWrap(l, k);
  }

  // ---------------------------------------------------------------- numbers

  function DigitChar(d: nat): (c: char)
    requires d < 10
    ensures IsDigit(c)
  {
    ('0' as int + d) as char
  }

  /** `String(n)` for a natural number: its decimal digits, most significant first. */
  function Decimal(n: nat): (s: string)
    ensures |s| > 0
    ensures forall k :: 0 <= k < |s| ==> IsDigit(s[k])
    decreases n
  {
    if n < 10 then [DigitChar(n)] else Decimal(n / 10) + [DigitChar(n % 10)]
  }

  function DigitValue(c: char): (d: nat)
    requires IsDigit(c)
    ensures d < 10
  {
    c as int - '0' as int
  }

  /** The number a string of decimal digits denotes. */
  function DecimalValue(s: string): nat
    requires forall k :: 0 <= k < |s| ==> IsDigit(s[k])
    decreases |s|
  {
    if |s| == 0 then 0 else DecimalValue(s[..|s| - 1]) * 10 + DigitValue(s[|s| - 1])
  }

  lemma {:induction false} DecimalRoundTrip(n: nat)
    ensures DecimalValue(Decimal(n)) == n
    decreases n
  {
    if n >= 10 {
      DecimalRoundTrip(n / 10);
      var s := Decimal(n);
      assert s[..|s| - 1] == Decimal(n / 10);
    }
  }

  /** A decimal numeral is a plain line. */
  lemma DecimalIsPlain(n: nat)
    ensures IsPlainLine(Decimal(n))
  {
    var s := Decimal(n);
    assert forall k :: 0 <= k < |s| ==> s[k] != '<';
  }
}
