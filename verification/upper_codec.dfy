/**
 * The uppercase revision of the verse codec (src/features/HymnForm/utilities.ts).
 * Decoding is `Markup.Decode`. Encoding inserts no markup at all: it upper-cases
 * the first character when it is an ASCII letter and the second character
 * otherwise. A one-letter line has no second character, which the template
 * string writes as the text `undefined`; an empty line or a one-character
 * line that is not a letter makes the source call `toUpperCase` on
 * `undefined`, so those lines cannot be encoded.
 */
module UpperCodec {
  import opened Markup

  /** The lines the encoder accepts without throwing. */
  predicate Encodable(line: string) {
    |line| >= 2 || (|line| == 1 && IsAsciiLetter(line[0]))
  }

  /** The index the encoder upper-cases in a line of two characters or more. */
  function UpperIndex(line: string): nat
    requires |line| >= 2
  {
    if IsAsciiLetter(line[0]) then 0 else 1
  }

  /** One line of `joinByBreakLine`. */
  function EncodeLine(line: string): (e: string)
    requires Encodable(line)
    ensures |line| == 1 ==> e == [Upper(line[0])] + "undefined"
    ensures |line| >= 2 ==> |e| == |line|
    ensures |line| >= 2 ==> forall i :: 0 <= i < |line| ==>
              e[i] == (if i == UpperIndex(line) then Upper(line[i]) else line[i])
    ensures |line| >= 2 ==> UpperIndex(e) == UpperIndex(line)
    ensures |e| >= 2
    ensures ('<' in e) <==> ('<' in line)
    ensures IsTrimmed(line) ==> IsTrimmed(e)
  {
    if |line| == 1 then
      assert "undefined"[8] == 'd';
      [Upper(line[0])] + "undefined"
    else
      var first, second, rest := line[0], line[1], line[2..];
      var e :=
        if IsAsciiLetter(first) then [Upper(first)] + [second] + rest
        else [first] + [Upper(second)] + rest;
      assert forall i :: 2 <= i < |line| ==> e[i] == line[i];
      assert forall c :: c in e ==> c in line || c == Upper(first) || c == Upper(second);
      assert forall c :: c in line ==> c in e || c == first || c == second;
      e
  }

  /** A one-letter line is saved as that letter upper-cased followed by the text `undefined`. */
  lemma OneLetterGainsUndefined()
    ensures EncodeLine("o") == "Oundefined"
  {
  }

  /** Upper-casing twice is upper-casing once, so re-encoding changes nothing. */
  lemma EncodeIdempotent(line: string)
    requires Encodable(line)
    ensures EncodeLine(EncodeLine(line)) == EncodeLine(line)
  {
    var e := EncodeLine(line);
    if |line| == 1 {
      assert e[0] == Upper(line[0]) && IsAsciiLetter(e[0]);
      assert Upper(Upper(line[0])) == Upper(line[0]);
    } else {
      var k := UpperIndex(line);
      assert e[k] == Upper(line[k]);
      assert Upper(Upper(line[k])) == Upper(line[k]);
    }
  }

  function Encoded(lines: seq<string>): (es: seq<string>)
    requires forall k :: 0 <= k < |lines| ==> Encodable(lines[k])
    ensures |es| == |lines|
    ensures forall k :: 0 <= k < |lines| ==> es[k] == EncodeLine(lines[k])
  {
    seq(|lines|, k requires 0 <= k < |lines| => EncodeLine(lines[k]))
  }

  /** `joinByBreakLine`: encode every line and join with `<br>`. */
  function Join(lines: seq<string>): (html: string)
    requires forall k :: 0 <= k < |lines| ==> Encodable(lines[k])
    ensures |lines| > 0 && (forall k :: 0 <= k < |lines| ==> '<' !in lines[k]) ==>
              Segments(html) == Encoded(lines) && BreakCount(html) == |lines| - 1
  {
    var es := Encoded(lines);
    assert forall k :: 0 <= k < |lines| ==> '<' !in lines[k] ==> NoBreak(es[k]) by {
      forall k | 0 <= k < |lines| && '<' !in lines[k] ensures NoBreak(es[k]) {
        NoLtNoBreak(es[k]);
      }
    }
    assert |lines| > 0 && (forall k :: 0 <= k < |lines| ==> '<' !in lines[k]) ==>
      Segments(JoinBr(es)) == es && BreakCount(JoinBr(es)) == |lines| - 1
    by {
      if |lines| > 0 && (forall k :: 0 <= k < |lines| ==> '<' !in lines[k]) {
        SegmentsOfJoin(es);
      }
    }
    JoinBr(es)
  }

  /** Decoding an encoded verse gives its lines with the emphasised letter upper-cased. */
  lemma DecodeJoin(lines: seq<string>)
    requires |lines| > 0
    requires forall k :: 0 <= k < |lines| ==> Encodable(lines[k]) && IsPlainLine(lines[k])
    ensures Decode(Join(lines)) == Encoded(lines)
  {
    var es := Encoded(lines);
    var html := Join(lines);
    assert Segments(html) == es;
    forall k | 0 <= k < |lines|
      ensures Decode(html)[k] == es[k]
    {
      assert '<' !in es[k] && IsTrimmed(es[k]);
      CleanNoLt(es[k]);
    }
  }

  /** Encoding a list of lines twice is encoding it once. */
  lemma EncodedIdempotent(lines: seq<string>)
    requires forall k :: 0 <= k < |lines| ==> Encodable(lines[k])
    ensures var es := Encoded(lines);
            (forall k :: 0 <= k < |es| ==> Encodable(es[k])) && Encoded(es) == es
  {
    var es := Encoded(lines);
    forall k | 0 <= k < |es| ensures Encodable(es[k]) && EncodeLine(es[k]) == es[k] {
      EncodeIdempotent(lines[k]);
    }
  }

  /** Encoding is idempotent through a decode: join(split(join(L))) == join(L). */
  lemma JoinDecodeJoin(lines: seq<string>)
    requires |lines| > 0
    requires forall k :: 0 <= k < |lines| ==> Encodable(lines[k]) && IsPlainLine(lines[k])
    ensures var decoded := Decode(Join(lines));
            (forall k :: 0 <= k < |decoded| ==> Encodable(decoded[k])) && Join(decoded) == Join(lines)
  {
    DecodeJoin(lines);
    EncodedIdempotent(lines);
    var es := Encoded(lines);
    assert Join(es) == JoinBr(Encoded(es)) == JoinBr(es) == Join(lines);
  }
}
