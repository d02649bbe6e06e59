/**
 * The live preview of the features verse form
 * (src/features/HymnForm/IndividualVerseForm/IndividualVerseForm.tsx),
 * which runs the uppercase encoder over the buffer on every render. The
 * encoder throws on a line it cannot encode, and nothing catches the throw,
 * so such a line takes the form down before its save can flag it.
 */
module FeaturesPreview {
  import opened Wrappers
  import opened Markup
  import UpperCodec
  import VerseBuffer

  /** Every line of the buffer can go through the encoder. */
  predicate Renders(verse: seq<string>) {
    forall k :: 0 <= k < |verse| ==> UpperCodec.Encodable(verse[k])
  }

  /**
   * As written: `joinByBreakLine(verse)` in the render, or nothing where it
   * throws. A buffer that renders has no empty line.
   */
  function Preview(verse: seq<string>): (r: Option<string>)
    ensures r.Some? <==> Renders(verse)
    ensures r.Some? ==> forall k :: 0 <= k < |verse| ==> verse[k] != ""
  {
    if Renders(verse) then Some(UpperCodec.Join(verse)) else None
  }

  /**
   * While the form renders, a save of every line always commits: the
   * empty-line flags of its validation are never set.
   */
  lemma RenderedSaveAllCommits(f: VerseBuffer.Form)
    requires Preview(f.verse).Some?
    ensures VerseBuffer.Save(f, None).committed == Some(f.verse)
  {
    var p := VerseBuffer.Payload(f, None);
    assert p == f.verse;
    assert forall i :: 0 <= i < |p| ==> p[i] != "";
  }

  /** Clearing a line, or typing one non-letter character into it, crashes the preview. */
  lemma ShortLineCrashesPreview(f: VerseBuffer.Form, idx: nat)
    requires idx < |f.verse|
    ensures Preview(VerseBuffer.Edit(f, idx, "").verse).None?
    ensures Preview(VerseBuffer.Edit(f, idx, "1").verse).None?
  {
    var cleared := VerseBuffer.Edit(f, idx, "").verse;
    assert !UpperCodec.Encodable(cleared[idx]);
    var digit := VerseBuffer.Edit(f, idx, "1").verse;
    assert !IsAsciiLetter(digit[idx][0]);
    assert !UpperCodec.Encodable(digit[idx]);
  }

  // ---------------------------------------------------------------- corrected

  /** The character the encoder upper-cases: the first if it is a letter, else the second. */
  function ChosenIndex(line: string): nat {
    if |line| > 0 && IsAsciiLetter(line[0]) then 0 else 1
  }

  /**
   * Corrected: the chosen character is upper-cased when it exists, and a
   * missing character is simply absent. The encoder is total and agrees
   * with the source on every line of two characters or more.
   */
  function CorrectedEncodeLine(line: string): (e: string)
    ensures |e| == |line|
    ensures forall i :: 0 <= i < |line| ==> e[i] == (if i == ChosenIndex(line) then Upper(line[i]) else line[i])
    ensures |line| >= 2 ==> e == UpperCodec.EncodeLine(line)
  {
    var k := ChosenIndex(line);
    var e := seq(|line|, i requires 0 <= i < |line| => if i == k then Upper(line[i]) else line[i]);
    assert |line| >= 2 ==> e == UpperCodec.EncodeLine(line) by {
      if |line| >= 2 {
        var s := UpperCodec.EncodeLine(line);
        assert UpperCodec.UpperIndex(line) == k;
        assert forall i :: 0 <= i < |line| ==> e[i] == s[i];
      }
    }
    e
  }

  /** Corrected preview: every buffer renders. */
  function CorrectedPreview(verse: seq<string>): (html: string)
    ensures Renders(verse) && (forall k :: 0 <= k < |verse| ==> |verse[k]| >= 2) ==>
              html == UpperCodec.Join(verse)
  {
    var es := MapSeq(CorrectedEncodeLine, verse);
    assert Renders(verse) && (forall k :: 0 <= k < |verse| ==> |verse[k]| >= 2) ==>
      es == UpperCodec.Encoded(verse);
    JoinBr(es)
  }

  /**
   * With the corrected preview the form survives a cleared line, and the
   * next save of every line is refused with that line flagged.
   */
  lemma ClearedLineIsFlagged(f: VerseBuffer.Form, idx: nat)
    requires idx < |f.verse|
    ensures var g := VerseBuffer.Edit(f, idx, "");
            var r := VerseBuffer.Save(g, None);
            r.committed.None? && idx in r.form.errors
  {
    var g := VerseBuffer.Edit(f, idx, "");
    assert VerseBuffer.Payload(g, None)[idx] == "";
  }
}
