/**
 * The earliest revision of the verse codec (src/components/HymnForm/utilities.ts).
 * Decoding is `Markup.Decode`. Encoding wraps character 0 of every line,
 * letter or not; an empty line reads the missing character as `undefined`.
 */
module BoldFirstCodec {
  import opened Markup

  /** One line of `joinByBreakLine`: `<b>${line[0]}</b>${line.slice(1)}`. */
  function EncodeLine(line: string): (e: string)
    ensures |line| == 0 ==> e == BoldOpen + "undefined" + BoldClose
    ensures |line| > 0 ==> e == Wrap(line, 0)
    ensures '<' !in line ==> NoBreak(e)
    ensures '<' !in line && |line| > 0 ==> StripMarkers(e) == line
  {
    var first := if |line| == 0 then "undefined" else line[..1];
    var rest := if |line| == 0 then "" else line[1..];
    var e := BoldOpen + first + BoldClose + rest;
    EnclosedFacts("undefined");
    assert |line| > 0 && '<' !in line ==> NoBreak(Wrap(line, 0)) && StripMarkers(Wrap(line, 0)) == line
    by {
      if |line| > 0 && '<' !in line {
        WrapNoBreak(line, 0);
        StripWrap(line, 0);
      }
    }
    e
  }

  function Encoded(lines: seq<string>): (es: seq<string>)
    ensures |es| == |lines|
    ensures forall k :: 0 <= k < |lines| ==> es[k] == EncodeLine(lines[k])
  {
    seq(|lines|, k requires 0 <= k < |lines| => EncodeLine(lines[k]))
  }

  /** `joinByBreakLine`: wrap character 0 of every line and join with `<br>`. */
  function Join(lines: seq<string>): (html: string)
    ensures |lines| > 0 && (forall k :: 0 <= k < |lines| ==> '<' !in lines[k]) ==>
              Segments(html) == Encoded(lines) && BreakCount(html) == |lines| - 1
  {
    var es := Encoded(lines);
    assert |lines| > 0 && (forall k :: 0 <= k < |lines| ==> '<' !in lines[k]) ==>
      Segments(JoinBr(es)) == es && BreakCount(JoinBr(es)) == |lines| - 1
    by {
      if |lines| > 0 && (forall k :: 0 <= k < |lines| ==> '<' !in lines[k]) {
        SegmentsOfJoin(es);
      }
    }
    JoinBr(es)
  }

  /** Decoding an encoded verse gives back its lines. */
  lemma RoundTrip(lines: seq<string>)
    requires |lines| > 0
    requires forall k :: 0 <= k < |lines| ==> IsPlainLine(lines[k])
    ensures Decode(Join(lines)) == lines
  {
    var segs := Segments(Join(lines));
    assert segs == Encoded(lines) by {
      assert forall k :: 0 <= k < |lines| ==> IsPlainLine(lines[k]) && '<' !in lines[k];
    }
    var decoded := Clean(segs);
    forall k | 0 <= k < |lines|
      ensures decoded[k] == lines[k]
    {
      assert segs[k] == Wrap(lines[k], 0);
      DecodeWrap(lines[k], 0);
    }
  }

  /** Character 0 is wrapped even when it is not a letter. */
  lemma QuoteIsWrapped()
    ensures EncodeLine("“Hello") == "<b>“</b>Hello"
  {
    var l := "“Hello";
    assert BoldOpen + l[..1] + BoldClose + l[1..] == "<b>“</b>Hello";
  }
}
