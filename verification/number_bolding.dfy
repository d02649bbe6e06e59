/**
 * The one-off data fix-up script (script.js): in every line of a verse, a
 * leading verse number is emphasised for chorus verses and un-emphasised
 * for the others. Reading and writing the hymn files is left out.
 */
module NumberBolding {
  import opened Markup
  import opened Hymns

  /** The longest run of digits at the start of `s` (`\d+` matched greedily). */
  function LeadingDigits(s: string): (d: string)
    ensures d <= s
    ensures forall k :: 0 <= k < |d| ==> IsDigit(d[k])
    ensures |d| == |s| || !IsDigit(s[|d|])
    decreases |s|
  {
    if |s| > 0 && IsDigit(s[0]) then [s[0]] + LeadingDigits(s[1..]) else ""
  }

  /** A digit run followed by text that does not start with a digit has exactly that run as leading digits. */
  lemma {:induction false} LeadingDigitsOf(n: string, t: string)
    requires forall k :: 0 <= k < |n| ==> IsDigit(n[k])
    requires |t| == 0 || !IsDigit(t[0])
    ensures LeadingDigits(n + t) == n
    decreases |n|
  {
    if |n| > 0 {
      assert (n + t)[1..] == n[1..] + t;
      LeadingDigitsOf(n[1..], t);
    }
  }

  /** The outcome of `line.match(/^<b>(\d+)<\/b>|^(\d+)/)`. */
  datatype NumberMatch = NoNumber | BoldNumber(digits: string) | PlainNumber(digits: string)

  function MatchNumber(line: string): (m: NumberMatch)
    ensures m.BoldNumber? ==> |m.digits| > 0 && BoldOpen + m.digits + BoldClose <= line
                              && (forall k :: 0 <= k < |m.digits| ==> IsDigit(m.digits[k]))
    ensures m.PlainNumber? ==> |m.digits| > 0 && m.digits <= line
                               && (forall k :: 0 <= k < |m.digits| ==> IsDigit(m.digits[k]))
                               && (|line| == |m.digits| || !IsDigit(line[|m.digits|]))
                               && !(BoldOpen <= line)
    ensures m.NoNumber? <==> (|line| == 0 || !IsDigit(line[0])) && !(BoldOpen <= line && |line| > 3 && IsDigit(line[3]) && BoldClose <= line[3 + |LeadingDigits(line[3..])|..])
  {
    if BoldOpen <= line && |LeadingDigits(line[3..])| > 0
       && BoldClose <= line[3 + |LeadingDigits(line[3..])|..]
    then
      var n := LeadingDigits(line[3..]);
      assert line[..3 + |n| + 4] == BoldOpen + n + BoldClose;
      BoldNumber(n)
    else if |LeadingDigits(line)| > 0 then PlainNumber(LeadingDigits(line))
    else NoNumber
  }

  /** One line of `processBolding`. */
  function ProcessLine(line: string, shouldBold: bool): (r: string)
    ensures MatchNumber(line).NoNumber? ==> r == line
    ensures MatchNumber(line).BoldNumber? ==>
              var n := MatchNumber(line).digits;
              r == if shouldBold then line else n + line[|n| + 7..]
    ensures MatchNumber(line).PlainNumber? ==>
              var n := MatchNumber(line).digits;
              r == if shouldBold then BoldOpen + n + BoldClose + line[|n|..] else line
  {
    match MatchNumber(line)
    case NoNumber => line
    case BoldNumber(n) =>
      if shouldBold then line
      else
        assert StartsWith(line, BoldOpen + n + BoldClose);
        ReplaceFirstEdges(line, BoldOpen + n + BoldClose, n);
        ReplaceFirst(line, BoldOpen + n + BoldClose, n)
    case PlainNumber(n) =>
      if shouldBold then
        assert StartsWith(line, n);
        ReplaceFirstEdges(line, n, BoldOpen + n + BoldClose);
        ReplaceFirst(line, n, BoldOpen + n + BoldClose)
      else line
  }

  /** Processing a line holding no `<br>` yields a line holding no `<br>`. */
  lemma ProcessLineNoBreak(line: string, shouldBold: bool)
    requires NoBreak(line)
    ensures NoBreak(ProcessLine(line, shouldBold))
  {
    match MatchNumber(line)
    case NoNumber =>
    case BoldNumber(n) =>
      if !shouldBold {
        NoBreakSuffix(line, |n| + 7);
        assert '<' !in n by { assert forall k :: 0 <= k < |n| ==> n[k] != '<'; }
        NoBreakAfterPlain(n, line[|n| + 7..]);
      }
    case PlainNumber(n) =>
      if shouldBold {
        var rest := line[|n|..];
        NoBreakSuffix(line, |n|);
        NoBreakAfterClose(rest);
        assert '<' !in n by { assert forall k :: 0 <= k < |n| ==> n[k] != '<'; }
        NoBreakAfterPlain(n, BoldClose + rest);
        NoBreakAfterOpen(n + (BoldClose + rest));
        assert BoldOpen + n + BoldClose + rest == BoldOpen + (n + (BoldClose + rest));
      }
  }

  /** Un-emphasising a leading number leaves a line that starts with plain digits. */
  lemma UnboldedReadsPlain(line: string, n: string)
    requires MatchNumber(line) == BoldNumber(n)
    ensures MatchNumber(ProcessLine(line, false)).PlainNumber?
  {
    var r := ProcessLine(line, false);
    assert r == n + line[|n| + 7..];
    assert r[0] == n[0];
    assert !(BoldOpen <= r);
    assert |LeadingDigits(r)| > 0;
  }

  /** A line opening with an emphasised digit run matches as exactly that emphasised number. */
  lemma MatchOfEmphasised(n: string, rest: string)
    requires |n| > 0 && forall k :: 0 <= k < |n| ==> IsDigit(n[k])
    ensures MatchNumber(BoldOpen + n + BoldClose + rest) == BoldNumber(n)
  {
    var r := BoldOpen + n + BoldClose + rest;
    assert r == BoldOpen + (n + (BoldClose + rest));
    assert r[3..] == n + (BoldClose + rest);
    LeadingDigitsOf(n, BoldClose + rest);
    assert r[3 + |n|..] == BoldClose + rest;
  }

  /** Emphasising a leading plain number leaves a line that starts with that number emphasised. */
  lemma BoldedReadsBold(line: string, n: string)
    requires MatchNumber(line) == PlainNumber(n)
    ensures MatchNumber(ProcessLine(line, true)) == BoldNumber(n)
  {
    assert ProcessLine(line, true) == BoldOpen + n + BoldClose + line[|n|..];
    MatchOfEmphasised(n, line[|n|..]);
  }

  /**
   * After processing, a leading number is emphasised exactly when the verse
   * is a chorus, and a second pass changes nothing.
   */
  lemma ProcessLineIdempotent(line: string, shouldBold: bool)
    ensures shouldBold ==> !MatchNumber(ProcessLine(line, shouldBold)).PlainNumber?
    ensures !shouldBold ==> !MatchNumber(ProcessLine(line, shouldBold)).BoldNumber?
    ensures ProcessLine(ProcessLine(line, shouldBold), shouldBold) == ProcessLine(line, shouldBold)
  {
    match MatchNumber(line)
    case NoNumber =>
    case BoldNumber(n) =>
      if !shouldBold {
        UnboldedReadsPlain(line, n);
      }
    case PlainNumber(n) =>
      if shouldBold {
        BoldedReadsBold(line, n);
      }
  }

  /** `shouldBold`: the verse is a chorus when its label contains `C`. */
  function ShouldBold(verseLabel: string): (b: bool)
    ensures b <==> 'C' in verseLabel
  {
    ContainsChar(verseLabel, 'C');
    Contains(verseLabel, "C")
  }

  /** `processBolding(html, shouldBold)`: fix every `<br>`-separated line, then rejoin. */
  function ProcessBolding(html: string, shouldBold: bool): (r: string)
    ensures Segments(r) == seq(|Segments(html)|, k requires 0 <= k < |Segments(html)| =>
                                 ProcessLine(Segments(html)[k], shouldBold))
    ensures BreakCount(r) == BreakCount(html)
  {
    var segs := Segments(html);
    var fixed := seq(|segs|, k requires 0 <= k < |segs| => ProcessLine(segs[k], shouldBold));
    forall k | 0 <= k < |segs| ensures NoBreak(fixed[k]) {
      ProcessLineNoBreak(segs[k], shouldBold);
    }
    SegmentsOfJoin(fixed);
    JoinBr(fixed)
  }

  /** Running the script a second time changes nothing. */
  lemma ProcessBoldingIdempotent(html: string, shouldBold: bool)
    ensures ProcessBolding(ProcessBolding(html, shouldBold), shouldBold) == ProcessBolding(html, shouldBold)
  {
    var once := ProcessBolding(html, shouldBold);
    var twice := ProcessBolding(once, shouldBold);
    forall k | 0 <= k < |Segments(html)|
      ensures Segments(twice)[k] == Segments(once)[k]
    {
      ProcessLineIdempotent(Segments(html)[k], shouldBold);
    }
    assert Segments(twice) == Segments(once);
    JoinSegments(twice);
    JoinSegments(once);
  }

  /** The script's per-verse step: only the markup changes, bolded by the verse's label. */
  function FixVerse(v: FileVerse): (r: FileVerse)
    ensures r.verseLabel == v.verseLabel && r.num == v.num
    ensures BreakCount(r.html) == BreakCount(v.html)
    ensures forall k :: 0 <= k < |Segments(v.html)| ==>
              Segments(r.html)[k] == ProcessLine(Segments(v.html)[k], 'C' in v.verseLabel)
  {
    v.(html := ProcessBolding(v.html, ShouldBold(v.verseLabel)))
  }

  /** Every verse of a hymn file fixed; the file's other fields kept. */
  function FixHymn(f: HymnFile): (r: HymnFile)
    ensures r.lang == f.lang && r.num == f.num && r.title == f.title
    ensures |r.verses| == |f.verses|
    ensures forall k :: 0 <= k < |f.verses| ==> r.verses[k] == FixVerse(f.verses[k])
  {
    f.(verses := seq(|f.verses|, k requires 0 <= k < |f.verses| => FixVerse(f.verses[k])))
  }

  /** Fixing a hymn file twice is fixing it once. */
  lemma FixHymnIdempotent(f: HymnFile)
    ensures FixHymn(FixHymn(f)) == FixHymn(f)
  {
    var once := FixHymn(f);
    forall k | 0 <= k < |f.verses| ensures FixVerse(once.verses[k]) == once.verses[k] {
      ProcessBoldingIdempotent(f.verses[k].html, ShouldBold(f.verses[k].verseLabel));
    }
    assert FixHymn(once).verses == once.verses;
  }
}
