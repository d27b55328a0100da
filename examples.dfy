/**
 * The numbers quoted in the comment above REGEX_NUMERO (extraer_numeros.py, line 10),
 * worked out by the lemmas below.  The first two are found in full.  The third has five digit
 * groups where the pattern allows four, so findall returns only its first four groups.
 */
module DocExamples {
  import opened Wrappers
  import opened PhonePattern
  import opened Scanner
  import opened Folder

  lemma Peru(s: string)
    requires s == "+51 958-123-456"
    ensures FindAll(PHONE, s) == [s]
  {
    SeparatedGroups(s, 0, 2, 3, 3, 3);
    WholeTextOnce(s);
  }

  lemma Chile(s: string)
    requires s == "+56 9 8765 4321"
    ensures FindAll(PHONE, s) == [s]
  {
    SeparatedGroups(s, 0, 2, 1, 4, 4);
    WholeTextOnce(s);
  }

  /** `\s` takes a line break too, so one match can span two lines of the text. */
  lemma LineBreakInside(s: string)
    requires s == "+54 9\n376 411"
    ensures FindAll(PHONE, s) == [s]
  {
    SeparatedGroups(s, 0, 2, 1, 3, 3);
    WholeTextOnce(s);
  }

  /** A text that is one whole match from its start yields exactly itself. */
  lemma WholeTextOnce(s: string)
    requires |s| > 0 && MatchAt(PHONE, s, 0) == Some(|s|)
    ensures FindAll(PHONE, s) == [s]
  {
    assert Scan(PHONE, s, 0) == [Span(0, |s|)] + Scan(PHONE, s, |s|);
    assert s[0..|s|] == s;
  }

  lemma Argentina(s: string)
    requires s == "+54 9 376 411 0177"
    ensures FindAll(PHONE, s) == ["+54 9 376 411"]
  {
    SeparatedGroups(s, 0, 2, 1, 3, 3);
    assert Scan(PHONE, s, 0) == [Span(0, 13)] + Scan(PHONE, s, 13);
    assert s[13..] == " 0177";
    ScanNoPlus(PHONE, s, 13);
    assert s[0..13] == "+54 9 376 411";
  }

  /** `n` digits in a row, followed by a character that is not a digit. */
  lemma DigitsRun(s: string, a: nat, n: nat)
    requires 1 <= n <= 4 && a + n < |s|
    requires IsDigit(s[a]) && (n >= 2 ==> IsDigit(s[a + 1]))
    requires (n >= 3 ==> IsDigit(s[a + 2])) && (n >= 4 ==> IsDigit(s[a + 3]))
    requires !IsDigit(s[a + n])
    ensures DigitRun(s, a, n)
  {
    var w := s[a..a + n];
    forall j | 0 <= j < n ensures IsDigit(w[j]) {
      assert w[j] == s[a + j];
      assert j == 0 || j == 1 || j == 2 || j == 3;
    }
  }

  /**
   * Wherever the characters "+54 9 376 411 " occur, the match found there covers its
   * first 13 characters: the last group stops at the space after "411".
   */
  lemma ArgentinaAt(s: string, i: nat)
    requires i + 14 <= |s|
    requires s[i] == '+' && s[i + 1] == '5' && s[i + 2] == '4' && s[i + 3] == ' '
    requires s[i + 4] == '9' && s[i + 5] == ' ' && s[i + 6] == '3' && s[i + 7] == '7'
    requires s[i + 8] == '6' && s[i + 9] == ' ' && s[i + 10] == '4' && s[i + 11] == '1'
    requires s[i + 12] == '1' && s[i + 13] == ' '
    ensures MatchAt(PHONE, s, i) == Some(i + 13)
  {
    DigitsRun(s, i + 1, 2);
    DigitsRun(s, i + 4, 1);
    DigitsRun(s, i + 6, 3);
    DigitsRun(s, i + 10, 3);
    SeparatedGroups(s, i, 2, 1, 3, 3);
  }

  /**
   * A text holding that number twice: findall returns the same four-group prefix twice,
   * the scan passing over the text between the matches.
   */
  lemma ArgentinaTwice(s: string, number: string)
    requires number == "+54 9 376 411 0177"
    requires s == "Call " + number + " or " + number
    ensures FindAll(PHONE, s) == ["+54 9 376 411", "+54 9 376 411"]
  {
    TwiceScan(s, number);
    assert s[5..18] == number[..13] == s[27..40] by {
      TwiceLayout(s, number);
    }
    assert number[..13] == "+54 9 376 411";
  }

  /** The scan of the two-number text: one span per occurrence. */
  lemma TwiceScan(s: string, number: string)
    requires number == "+54 9 376 411 0177"
    requires s == "Call " + number + " or " + number
    ensures Scan(PHONE, s, 0) == [Span(5, 18), Span(27, 40)]
  {
    TwiceFirst(s, number);
    TwiceSecond(s, number);
    assert '+' !in s[0..5] by {
      TwiceLayout(s, number);
    }
    SkipTo(PHONE, s, 0, 5);
  }

  /** The scan from the first occurrence finds it, then passes over the text up to the second. */
  lemma TwiceFirst(s: string, number: string)
    requires number == "+54 9 376 411 0177"
    requires s == "Call " + number + " or " + number
    ensures Scan(PHONE, s, 5) == [Span(5, 18)] + Scan(PHONE, s, 27)
  {
    TwiceLayout(s, number);
    ArgentinaAt(s, 5);
    assert Scan(PHONE, s, 5) == [Span(5, 18)] + Scan(PHONE, s, 18);
    SkipTo(PHONE, s, 18, 27);
  }

  /** The scan from the second occurrence finds only that occurrence. */
  lemma TwiceSecond(s: string, number: string)
    requires number == "+54 9 376 411 0177"
    requires s == "Call " + number + " or " + number
    ensures Scan(PHONE, s, 27) == [Span(27, 40)]
  {
    TwiceLayout(s, number);
    ArgentinaAt(s, 27);
    assert Scan(PHONE, s, 27) == [Span(27, 40)] + Scan(PHONE, s, 40);
    ScanNoPlus(PHONE, s, 40);
  }

  /** Where the pieces of the two-number text lie. */
  lemma TwiceLayout(s: string, number: string)
    requires number == "+54 9 376 411 0177"
    requires s == "Call " + number + " or " + number
    ensures |s| == 45
    ensures forall k :: 0 <= k < 18 ==> s[5 + k] == number[k] && s[27 + k] == number[k]
    ensures '+' !in s[0..5] && '+' !in s[18..27] && '+' !in s[40..]
    ensures s[5..18] == number[..13] == s[27..40]
  {
    var before, middle := "Call ", " or ";
    assert s == before + number + middle + number;
    assert s[0..5] == before;
    assert s[18..27] == number[13..] + middle;
    assert s[40..] == number[13..];
  }

  /** Which file an aborted run reports depends on the order of the listing. */
  lemma FailureDependsOnOrder(ocr: string -> Option<string>, a: string, b: string)
    requires IsImageName(a) && IsImageName(b) && ocr(a).None? && ocr(b).None?
    ensures FirstFailure([a, b], ocr) == Some(a)
    ensures FirstFailure([b, a], ocr) == Some(b)
  {
    assert Fails(a, ocr) && Fails(b, ocr);
    assert [a][..0] == [] && [b][..0] == [];
    assert FirstFailure([a], ocr) == Some(a);
    assert FirstFailure([b], ocr) == Some(b);
    assert [a, b][..1] == [a];
    assert [b, a][..1] == [b];
  }

  /** What the loop gathers from a skipped file and a screenshot that yields only `w`. */
  lemma SkipAndRead(listing: seq<string>, ocr: string -> Option<string>, notes: string, shot: string,
                    w: string)
    requires !IsImageName(notes) && IsImageName(shot) && listing == [notes, shot]
    requires Extracted(shot, ocr) == {w} && ocr(shot).Some?
    ensures FirstFailure(listing, ocr) == None
    ensures Collected(listing, ocr) == {w}
  {
    CollectedStep(listing, ocr, 0);
    CollectedStep(listing, ocr, 1);
    assert listing[..0] == [] && listing[..1] == [notes] && listing[..2] == listing;
    assert Extracted(notes, ocr) == {};
    assert FirstFailure(listing[..1], ocr) == None;
  }

  /**
   * A skipped file and a screenshot whose text holds the same number twice: nothing fails,
   * and the output file holds that number on a single line.
   */
  lemma RepeatedNumberOnce(listing: seq<string>, ocr: string -> Option<string>, notes: string, shot: string,
                           text: string, w: string, lines: seq<string>)
    requires !IsImageName(notes) && IsImageName(shot) && listing == [notes, shot]
    requires ocr(shot) == Some(text) && FindAll(PHONE, text) == [w, w]
    requires OutputFor(lines, Collected(listing, ocr))
    ensures FirstFailure(listing, ocr) == None
    ensures lines == [w + "\n"]
  {
    assert Extracted(shot, ocr) == {w};
    SkipAndRead(listing, ocr, notes, shot, w);
    FindAllAreNumbers(text, 0);
    SingleOutput(w, lines);
  }
}
