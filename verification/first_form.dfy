/**
 * The first hymn form (src/components/HymnForm/index.tsx). It carries its
 * own `splitByBreakLine`, which differs from `Markup.Decode` twice over:
 * pieces that are blank after trimming are dropped (before any marker is
 * removed), and only the first `<b>` and the first `</b>` of a piece are
 * removed. The form shows the first decoded line as the verse number and
 * keeps an editable copy of the rest.
 */
module FirstForm {
  import opened Markup
  import opened Wrappers

  /** The text with its first occurrence of `pat` cut out, or unchanged when there is none. */
  function CutFirst(t: string, pat: string): (r: string)
    requires |pat| > 0
    ensures Contains(t, pat) ==> |r| == |t| - |pat|
    ensures !Contains(t, pat) ==> r == t
  {
    var i := IndexOf(t, pat);
    if i < 0 then t else t[..i] + t[i + |pat|..]
  }

  /**
   * `line.replace("<b>", "").replace("</b>", "")`: the first `<b>` is cut
   * out, then the first `</b>` of what is left; later markers stay.
   */
  function CleanFirstMarkers(t: string): (r: string)
    ensures r == CutFirst(CutFirst(t, BoldOpen), BoldClose)
    ensures '<' !in t ==> r == t
    ensures |r| <= |t|
  {
    var once := ReplaceFirst(t, BoldOpen, "");
    assert once == CutFirst(t, BoldOpen);
    var twice := ReplaceFirst(once, BoldClose, "");
    assert twice == CutFirst(once, BoldClose);
    assert '<' !in t ==> twice == t by {
      if '<' !in t {
        NoLtNotContains(t, BoldOpen);
        NoLtNotContains(t, BoldClose);
      }
    }
    twice
  }

  /** A pattern starting with `<` is first found right after a stretch of text without `<`. */
  lemma IndexOfAfterPlain(x: string, w: string, pat: string)
    requires |pat| > 0 && pat[0] == '<' && '<' !in x && StartsWith(w, pat)
    ensures IndexOf(x + w, pat) == |x|
  {
    var s := x + w;
    assert s[|x|..] == w;
    IndexOfIsFirst(s, pat, |x|);
    assert s[IndexOf(s, pat)..][0] == '<';
  }

  /** Cutting the first `pat` out of text without `<`, then `pat`, then anything. */
  lemma CutFirstAfterPlain(x: string, pat: string, z: string)
    requires |pat| > 0 && pat[0] == '<' && '<' !in x
    ensures CutFirst(x + pat + z, pat) == x + z
  {
    var t := x + pat + z;
    assert t == x + (pat + z);
    IndexOfAfterPlain(x, pat + z, pat);
    assert t[..|x|] == x;
    assert t[|x| + |pat|..] == z;
  }

  /**
   * In a line whose first `<b>` and first `</b>` after it follow stretches
   * of text without `<`, exactly that pair is removed and the rest of the
   * line, markers included, is kept.
   */
  lemma FirstPairRemoved(x: string, y: string, rest: string)
    requires '<' !in x && '<' !in y
    ensures CleanFirstMarkers(x + BoldOpen + y + BoldClose + rest) == x + y + rest
  {
    var t := x + BoldOpen + y + BoldClose + rest;
    assert t == x + BoldOpen + (y + BoldClose + rest);
    CutFirstAfterPlain(x, BoldOpen, y + BoldClose + rest);
    var u := x + (y + BoldClose + rest);
    assert u == (x + y) + BoldClose + rest;
    assert '<' !in x + y by {
      forall c | c in x + y ensures c != '<' {
        assert c in x || c in y;
      }
    }
    CutFirstAfterPlain(x + y, BoldClose, rest);
  }

  /** Trim each piece, drop the blank ones, clean the rest. */
  function KeepLines(segs: seq<string>): (lines: seq<string>)
    ensures |lines| <= |segs|
    decreases |segs|
  {
    if |segs| == 0 then []
    else
      var t := Trim(segs[0]);
      (if |t| > 0 then [CleanFirstMarkers(t)] else []) + KeepLines(segs[1..])
  }

  /** The form's `splitByBreakLine`. */
  function SplitLines(html: string): (lines: seq<string>)
    ensures |lines| <= BreakCount(html) + 1
  {
    KeepLines(Segments(html))
  }

  /** A blank piece in front vanishes. */
  lemma BlankPieceDropped(x: string, rest: string)
    requires NoBreak(x) && |Trim(x)| == 0
    ensures SplitLines(x + Br + rest) == SplitLines(rest)
  {
    SegmentsCons(x, rest);
    assert Segments(x + Br + rest)[1..] == Segments(rest);
  }

  /** A piece with text in front becomes the first line, with its first markers removed. */
  lemma TextPieceKept(x: string, rest: string)
    requires NoBreak(x) && |Trim(x)| > 0
    ensures SplitLines(x + Br + rest) == [CleanFirstMarkers(Trim(x))] + SplitLines(rest)
  {
    SegmentsCons(x, rest);
    assert Segments(x + Br + rest)[1..] == Segments(rest);
  }

  /** A first piece with text and no markers is kept as its trimmed self. */
  lemma PlainHeadKept(segs: seq<string>)
    requires |segs| > 0 && '<' !in segs[0] && |Trim(segs[0])| > 0
    ensures KeepLines(segs) == [Trim(segs[0])] + KeepLines(segs[1..])
  {
    var t := Trim(segs[0]);
    assert '<' !in t;
    assert CleanFirstMarkers(t) == t;
  }

  /** A piece with text and without markers. */
  predicate PlainPiece(x: string) {
    '<' !in x && |Trim(x)| > 0
  }

  /** Every piece has text and no markers, stated piece by piece from the front. */
  predicate AllPlain(segs: seq<string>)
    decreases |segs|
  {
    |segs| == 0 || (PlainPiece(segs[0]) && AllPlain(segs[1..]))
  }

  /** Each piece trimmed, nothing dropped. */
  function TrimAll(segs: seq<string>): (lines: seq<string>)
    ensures |lines| == |segs|
    decreases |segs|
  {
    if |segs| == 0 then [] else [Trim(segs[0])] + TrimAll(segs[1..])
  }

  lemma {:induction false} TrimAllAt(segs: seq<string>)
    ensures forall k :: 0 <= k < |segs| ==> TrimAll(segs)[k] == Trim(segs[k])
    decreases |segs|
  {
    if |segs| > 0 {
      var rest := segs[1..];
      TrimAllAt(rest);
      forall k | 0 < k < |segs| ensures TrimAll(segs)[k] == Trim(segs[k]) {
        assert TrimAll(segs)[k] == TrimAll(rest)[k - 1] && segs[k] == rest[k - 1];
      }
    }
  }

  lemma {:induction false} AllPlainOf(segs: seq<string>)
    requires forall k :: 0 <= k < |segs| ==> PlainPiece(segs[k])
    ensures AllPlain(segs)
    decreases |segs|
  {
    if |segs| > 0 {
      var rest := segs[1..];
      assert forall k :: 0 <= k < |rest| ==> rest[k] == segs[k + 1];
      AllPlainOf(rest);
    }
  }

  lemma {:induction false} KeepLinesOfAllPlain(segs: seq<string>)
    requires AllPlain(segs)
    ensures KeepLines(segs) == TrimAll(segs)
    decreases |segs|
  {
    if |segs| > 0 {
      PlainHeadKept(segs);
      KeepLinesOfAllPlain(segs[1..]);
    }
  }

  /** Without markers and blank pieces, keeping lines is trimming them, as the shared decoder does. */
  lemma KeepLinesOfPlain(segs: seq<string>)
    requires forall k :: 0 <= k < |segs| ==> '<' !in segs[k] && |Trim(segs[k])| > 0
    ensures |KeepLines(segs)| == |segs|
    ensures forall k :: 0 <= k < |segs| ==> KeepLines(segs)[k] == Trim(segs[k])
  {
    AllPlainOf(segs);
    KeepLinesOfAllPlain(segs);
    TrimAllAt(segs);
  }

  /**
   * On markup without markers and without blank lines this decoder agrees
   * with `Markup.Decode`; the two differ only on blank pieces and repeated markers.
   */
  lemma AgreesWithDecode(html: string)
    requires forall k :: 0 <= k < |Segments(html)| ==>
               '<' !in Segments(html)[k] && |Trim(Segments(html)[k])| > 0
    ensures SplitLines(html) == Decode(html)
  {
    var segs := Segments(html);
    KeepLinesOfPlain(segs);
    forall k | 0 <= k < |segs| ensures Decode(html)[k] == SplitLines(html)[k] {
      CleanNoLt(segs[k]);
    }
  }

  /** The blank filter runs before marker removal, so an empty emphasis still yields an empty line. */
  lemma EmptyEmphasisKept()
    ensures SplitLines(BoldOpen + BoldClose) == [""]
  {
    var x := BoldOpen + BoldClose;
    EnclosedFacts("");
    assert BoldOpen + "" + BoldClose == x;
    SegmentsSingle(x);
    assert IsTrimmed(x);
    assert x[3..] == BoldClose;
    assert BoldClose[4..] == "";
  }

  // ---------------------------------------------------------------- the form

  /**
   * The form's state: the hymn's verse markup, the selected verse, and the
   * edited lines. The edited lines are initialised once and are not
   * recomputed when another verse is selected.
   */
  datatype Form = Form(verses: seq<string>, selectedVerse: nat, formContent: seq<string>)

  /** `[_verseNo, ...content]`: the verse number line, absent when nothing survives the filter. */
  function VerseNo(html: string): (n: Option<string>)
    ensures n.Some? <==> |SplitLines(html)| > 0
  {
    var lines := SplitLines(html);
    if |lines| == 0 then None else Some(lines[0])
  }

  /** The editable lines of a verse: everything after the verse number. */
  function Content(html: string): (content: seq<string>)
    ensures |content| == if |SplitLines(html)| == 0 then 0 else |SplitLines(html)| - 1
    ensures VerseNo(html).Some? ==> SplitLines(html) == [VerseNo(html).value] + content
  {
    var lines := SplitLines(html);
    if |lines| == 0 then [] else lines[1..]
  }

  /** The form as first shown: verse 0 selected, its lines ready for editing. */
  function Open(verses: seq<string>): (f: Form)
    requires |verses| > 0
    ensures f.selectedVerse == 0 && f.verses == verses
    ensures f.formContent == Content(verses[0])
  {
    Form(verses, 0, Content(verses[0]))
  }

  /** The lines the selected verse decodes to. */
  function Shown(f: Form): seq<string>
    requires f.selectedVerse < |f.verses|
  {
    Content(f.verses[f.selectedVerse])
  }

  /** Choosing another verse button: the edited lines stay as they were. */
  function SelectVerse(f: Form, idx: nat): (r: Form)
    requires idx < |f.verses|
    ensures r.selectedVerse == idx && r.verses == f.verses
    ensures r.formContent == f.formContent
  {
    f.(selectedVerse := idx)
  }

  /** `handleUpdateInput(idx)`: the edited line at `idx` takes the typed value. */
  function UpdateInput(f: Form, idx: nat, value: string): (r: Form)
    requires idx < |f.formContent|
    ensures r.verses == f.verses && r.selectedVerse == f.selectedVerse
    ensures |r.formContent| == |f.formContent| && r.formContent[idx] == value
    ensures forall j :: 0 <= j < |f.formContent| && j != idx ==> r.formContent[j] == f.formContent[j]
  {
    f.(formContent := f.formContent[..idx] + [value] + f.formContent[idx + 1..])
  }

  /**
   * `handleResetLineText(idx)`: it copies the whole decoded verse and
   * splices line `idx` with its own value, so every edited line is reset,
   * not only line `idx`. The buttons belong to the edited lines, which are
   * not recomputed when another verse is selected; when the selected verse
   * has no line `idx`, the splice appends `undefined` and the next render
   * throws on `line[0]` (`None`).
   */
  function ResetLine(f: Form, idx: nat): (r: Option<Form>)
    requires f.selectedVerse < |f.verses|
    requires idx < |f.formContent|
    ensures r.None? <==> idx >= |Shown(f)|
    ensures r.Some? ==> r.value.verses == f.verses && r.value.selectedVerse == f.selectedVerse
    ensures r.Some? ==> r.value.formContent == Shown(f)
  {
    var content := Shown(f);
    if idx < |content| then
      SpliceOwnValue(content, idx);
      Some(f.(formContent := content[..idx] + [content[idx]] + content[idx + 1..]))
    else None
  }

  /**
   * After another verse with fewer lines is selected, the reset button of
   * a line past its end is still shown, and pressing it breaks the form.
   */
  lemma ResetPastShorterVerse(f: Form, v: nat)
    requires v < |f.verses|
    requires |Content(f.verses[v])| < |f.formContent|
    ensures var g := SelectVerse(f, v);
            |g.formContent| == |f.formContent| && ResetLine(g, |g.formContent| - 1).None?
  {
  }

  /** Splicing a value back in its own place changes nothing. */
  lemma SpliceOwnValue<T>(s: seq<T>, i: nat)
    requires i < |s|
    ensures s[..i] + [s[i]] + s[i + 1..] == s
  {
  }
}
