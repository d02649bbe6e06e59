/**
 * The editor's verse codec (src/components/HymnEditor/utilities.ts). Decoding
 * is `Markup.Decode`. Encoding emphasises one character per line: the first
 * character when it is an ASCII letter, otherwise the second character,
 * whatever that is; a one-character line is wrapped whole and an empty line
 * reads the missing character as the text `undefined`.
 */
module EditorCodec {
  import opened Markup

  /** The index the encoder wraps in a non-empty line. */
  function EmphasisIndex(line: string): (k: nat)
    requires |line| > 0
    ensures k < |line|
  {
    if |line| >= 2 && !IsAsciiLetter(line[0]) then 1 else 0
  }

  /** One line of `joinByBreakLine`. */
  function EncodeLine(line: string): (e: string)
    ensures |line| == 0 ==> e == BoldOpen + "undefined" + BoldClose
    ensures |line| > 0 ==> e == Wrap(line, EmphasisIndex(line))
    ensures '<' !in line ==> NoBreak(e)
    ensures '<' !in line && |line| > 0 ==> StripMarkers(e) == line
  {
    var e :=
      if |line| == 0 then BoldOpen + "undefined" + BoldClose
      else if |line| == 1 then BoldOpen + line + BoldClose
      else if IsAsciiLetter(line[0]) then BoldOpen + line[..1] + BoldClose + line[1..]
      else line[..1] + BoldOpen + line[1..2] + BoldClose + line[2..];
    assert |line| == 1 ==> line == line[..0] + [line[0]] && line[1..] == [];
    assert |line| >= 2 ==> line[..1] == [line[0]] && line[1..2] == [line[1]];
    EnclosedFacts("undefined");
    assert |line| > 0 && '<' !in line ==>
      NoBreak(Wrap(line, EmphasisIndex(line))) && StripMarkers(Wrap(line, EmphasisIndex(line))) == line
    by {
      if |line| > 0 && '<' !in line {
        WrapNoBreak(line, EmphasisIndex(line));
        StripWrap(line, EmphasisIndex(line));
      }
    }
    e
  }

  function Encoded(lines: seq<string>): (es: seq<string>)
    ensures |es| == |lines|
    ensures forall k :: 0 <= k < |lines| ==> es[k] == EncodeLine(lines[k])
  {
    seq(|lines|, k requires 0 <= k < |lines| => EncodeLine(lines[k]))
  }

  /** `joinByBreakLine`: encode every line and join with `<br>`. */
  function Join(lines: seq<string>): (html: string)
    ensures |lines| > 0 && (forall k :: 0 <= k < |lines| ==> '<' !in lines[k]) ==>
              Segments(html) == Encoded(lines) && BreakCount(html) == |lines| - 1
  {
    var es := Encoded(lines);
    assert |lines| > 0 && (forall k :: 0 <= k < |lines| ==> '<' !in lines[k]) ==>
      Segments(JoinBr(es)) == es && BreakCount(JoinBr(es)) == |lines| - 1
    by {
      if |lines| > 0 && (forall k :: 0 <= k < |lines| ==> '<' !in lines[k]) {
        SegmentsOfJoin(es);
      }
    }
    JoinBr(es)
  }

  /** Decoding an encoded verse gives back its lines. */
  lemma RoundTrip(lines: seq<string>)
    requires |lines| > 0
    requires forall k :: 0 <= k < |lines| ==> IsPlainLine(lines[k])
    ensures Decode(Join(lines)) == lines
  {
    var segs := Segments(Join(lines));
    assert segs == Encoded(lines) by {
      assert forall k :: 0 <= k < |lines| ==> IsPlainLine(lines[k]) && '<' !in lines[k];
    }
    var decoded := Clean(segs);
    forall k | 0 <= k < |lines|
      ensures decoded[k] == lines[k]
    {
      assert segs[k] == Wrap(lines[k], EmphasisIndex(lines[k]));
      DecodeWrap(lines[k], EmphasisIndex(lines[k]));
    }
  }

  /** Encoding is stable under a decode: saving a reopened verse writes the same markup. */
  lemma ReencodeStable(lines: seq<string>)
    requires |lines| > 0
    requires forall k :: 0 <= k < |lines| ==> IsPlainLine(lines[k])
    ensures Join(Decode(Join(lines))) == Join(lines)
  {
    RoundTrip(lines);
  }

  /** The empty verse does not round-trip: it encodes as "" and decodes as one empty line. */
  lemma EmptyVerseDecodesToOneLine()
    ensures Join([]) == ""
    ensures Decode(Join([])) == [""]
  {
    assert Segments("") == [""];
    assert Trim("") == "";
    assert RemoveAll("", BoldOpen) == "";
  }

  /** An empty line is written as `<b>undefined</b>` and read back as the word `undefined`. */
  lemma EmptyLineReadsUndefined()
    ensures Join([""]) == BoldOpen + "undefined" + BoldClose
    ensures Decode(Join([""])) == ["undefined"]
  {
    var e := EncodeLine("");
    assert e == BoldOpen + "undefined" + BoldClose;
    assert Encoded([""]) == [e];
    DecodeEnclosed("undefined");
  }

  /** A leading quotation mark stays outside the marker; the letter after it is emphasised. */
  lemma QuoteBeforeLetter()
    ensures EncodeLine("“Hello") == "“<b>H</b>ello"
  {
    var l := "“Hello";
    assert !IsAsciiLetter(l[0]);
    assert l[..1] + BoldOpen + l[1..2] + BoldClose + l[2..] == "“<b>H</b>ello";
  }

  /** A first character that is not a letter keeps the second one emphasised, letter or not. */
  lemma DigitBeforeSpace()
    ensures EncodeLine("1 x") == "1<b> </b>x"
  {
    var l := "1 x";
    assert !IsAsciiLetter(l[0]);
    assert l[..1] + BoldOpen + l[1..2] + BoldClose + l[2..] == "1<b> </b>x";
  }
}
