/**
 * procesar_carpeta: the file-name filter, the set of numbers gathered over the folder
 * listing, and the sorted, stripped lines written to the output file.  The folder listing
 * is a parameter, and so is the OCR step: `ocr(name)` is the text read from the image, or
 * None when opening or reading the image raises.
 */
module Folder {
  import opened Wrappers
  import opened PhonePattern
  import opened Scanner
  import opened StringOrder

  // ---------------------------------------------------------------- the file-name filter

  function LowerChar(c: char): char {
    if 'A' <= c <= 'Z' then (c as int + 32) as char else c
  }

  function UpperChar(c: char): char {
    if 'a' <= c <= 'z' then (c as int - 32) as char else c
  }

  /** `str.lower()` on the ASCII letters. */
  function Lower(s: string): string {
    seq(|s|, i requires 0 <= i < |s| => LowerChar(s[i]))
  }

  /** `str.upper()` on the ASCII letters. */
  function Upper(s: string): string {
    seq(|s|, i requires 0 <= i < |s| => UpperChar(s[i]))
  }

  predicate EndsWith(s: string, suffix: string) {
    |suffix| <= |s| && s[|s| - |suffix|..] == suffix
  }

  /** The filter: the lowered name ends in png, jpg or jpeg; a dot before it is not required. */
  predicate IsImageName(name: string) {
    var low := Lower(name);
    EndsWith(low, "png") || EndsWith(low, "jpg") || EndsWith(low, "jpeg")
  }

  /** Which names pass: the extension test is a plain suffix test, in any letter case. */
  lemma ImageNameExamples(a: string, b: string, c: string, d: string, e: string)
    requires a == "photo.JPEG" && b == "xPNG" && c == "a.gif" && d == "shot.png.txt" && e == "Jpg"
    ensures IsImageName(a) && IsImageName(b) && !IsImageName(c) && !IsImageName(d) && IsImageName(e)
  {
    assert Lower(a)[6..] == "jpeg";
    assert Lower(b)[1..] == "png";
    assert Lower(c)[2..] == "gif" && Lower(c)[1..] == ".gif";
    assert Lower(d)[9..] == "txt" && Lower(d)[8..] == ".txt";
    assert Lower(e) == "jpg";
  }

  /** Only the last four characters of a name decide the filter. */
  lemma ImageNameSuffix(prefix: string, name: string)
    requires |name| >= 4
    ensures IsImageName(prefix + name) <==> IsImageName(name)
  {
    var w := prefix + name;
    LowerTail(prefix, name);
    SameTail(Lower(w), Lower(name), "png");
    SameTail(Lower(w), Lower(name), "jpg");
    SameTail(Lower(w), Lower(name), "jpeg");
  }

  /** Lowering a name ends the same way whatever comes before its last four characters. */
  lemma LowerTail(prefix: string, name: string)
    requires |name| >= 4
    ensures Lower(prefix + name)[|prefix + name| - 4..] == Lower(name)[|name| - 4..]
  {
    var w := prefix + name;
    var tw, tn := Lower(w)[|w| - 4..], Lower(name)[|name| - 4..];
    forall i | 0 <= i < 4 ensures tw[i] == tn[i] {
      assert w[|w| - 4 + i] == name[|name| - 4 + i];
    }
  }

  /** Two strings with the same last four characters end alike in at most four. */
  lemma SameTail(u: string, v: string, suffix: string)
    requires |suffix| <= 4 <= |u| && 4 <= |v| && u[|u| - 4..] == v[|v| - 4..]
    ensures EndsWith(u, suffix) <==> EndsWith(v, suffix)
  {
    assert u[|u| - 4..][4 - |suffix|..] == u[|u| - |suffix|..];
    assert v[|v| - 4..][4 - |suffix|..] == v[|v| - |suffix|..];
  }

  /** The filter ignores letter case. */
  lemma ImageNameCase(name: string)
    ensures IsImageName(Lower(name)) <==> IsImageName(name)
    ensures IsImageName(Upper(name)) <==> IsImageName(name)
  {
    LowerIdempotent(name);
    LowerOfUpper(name);
  }

  /** Lowering twice is lowering once. */
  lemma LowerIdempotent(s: string)
    ensures Lower(Lower(s)) == Lower(s)
  {
    forall i | 0 <= i < |s| ensures Lower(Lower(s))[i] == Lower(s)[i] {
      assert LowerChar(LowerChar(s[i])) == LowerChar(s[i]);
    }
  }

  /** Lowering an upper-cased string gives the lowered string. */
  lemma LowerOfUpper(s: string)
    ensures Lower(Upper(s)) == Lower(s)
  {
    forall i | 0 <= i < |s| ensures Lower(Upper(s))[i] == Lower(s)[i] {
      assert LowerChar(UpperChar(s[i])) == LowerChar(s[i]);
    }
  }

  // ---------------------------------------------------------------- str.strip()

  /** Leading whitespace removed. */
  function TrimStart(w: string): (r: string)
    ensures |r| <= |w| && r == w[|w| - |r|..]
    ensures forall i :: 0 <= i < |w| - |r| ==> IsSpace(w[i])
    ensures r == [] || !IsSpace(r[0])
    decreases |w|
  {
    if |w| > 0 && IsSpace(w[0]) then TrimStart(w[1..]) else w
  }

  /** Trailing whitespace removed. */
  function TrimEnd(w: string): (r: string)
    ensures |r| <= |w| && r == w[..|r|]
    ensures forall i :: |r| <= i < |w| ==> IsSpace(w[i])
    ensures r == [] || !IsSpace(r[|r| - 1])
    decreases |w|
  {
    if |w| > 0 && IsSpace(w[|w| - 1]) then TrimEnd(w[..|w| - 1]) else w
  }

  /** How many leading whitespace characters `str.strip()` removes. */
  function StripStart(w: string): nat {
    |w| - |TrimStart(w)|
  }

  /**
   * `str.strip()`: the longest middle part of `w` that neither begins nor ends with
   * whitespace, everything cut off on either side being whitespace.
   */
  function Strip(w: string): (r: string)
    ensures StripStart(w) + |r| <= |w| && r == w[StripStart(w)..StripStart(w) + |r|]
    ensures forall i :: 0 <= i < StripStart(w) ==> IsSpace(w[i])
    ensures forall i :: StripStart(w) + |r| <= i < |w| ==> IsSpace(w[i])
    ensures r == [] || (!IsSpace(r[0]) && !IsSpace(r[|r| - 1]))
  {
    TrimEnd(TrimStart(w))
  }

  /** A matched number has no whitespace at either end, so stripping leaves it as it is. */
  lemma StripKeepsNumber(w: string)
    requires Accepts(PHONE, w)
    ensures Strip(w) == w
  {
    PhoneShape(w);
    assert !IsSpace(w[0]) && !IsSpace(w[|w| - 1]);
    assert TrimStart(w) == w;
    assert TrimEnd(w) == w;
  }

  // ---------------------------------------------------------------- gathering the numbers

  /** The strings of a list, as `set.update` adds them. */
  function Elements(r: seq<string>): set<string> {
    set x | x in r
  }

  /** The numbers one listed file adds to the set: none when the filter skips it. */
  function Extracted(name: string, ocr: string -> Option<string>): set<string> {
    if IsImageName(name) && ocr(name).Some? then Elements(FindAll(PHONE, ocr(name).value)) else {}
  }

  /** The union of what `part` gives for each name of the listing. */
  function Gathered(listing: seq<string>, part: string -> set<string>): set<string>
    decreases |listing|
  {
    if listing == [] then {}
    else Gathered(listing[..|listing| - 1], part) + part(listing[|listing| - 1])
  }

  /** The set numeros_extraidos after the loop has gone over `listing`. */
  function Collected(listing: seq<string>, ocr: string -> Option<string>): set<string> {
    Gathered(listing, name => Extracted(name, ocr))
  }

  /** An image file whose OCR raises, which ends the run. */
  predicate Fails(name: string, ocr: string -> Option<string>) {
    IsImageName(name) && ocr(name).None?
  }

  /** One more file of the listing adds its own numbers to the set. */
  lemma CollectedStep(listing: seq<string>, ocr: string -> Option<string>, i: nat)
    requires i < |listing|
    ensures Collected(listing[..i + 1], ocr) == Collected(listing[..i], ocr) + Extracted(listing[i], ocr)
  {
    assert listing[..i + 1][..i] == listing[..i];
  }

  /** The first image file of the listing whose OCR raises, if any. */
  function FirstFailure(listing: seq<string>, ocr: string -> Option<string>): Option<string>
    decreases |listing|
  {
    if listing == [] then None
    else
      match FirstFailure(listing[..|listing| - 1], ocr)
      case Some(f) => Some(f)
      case None =>
        var name := listing[|listing| - 1];
        if Fails(name, ocr) then Some(name) else None
  }

  /** An element of the union comes from some name of the listing, and each name's part is in it. */
  lemma {:induction false} GatheredIff(listing: seq<string>, part: string -> set<string>, x: string)
    ensures x in Gathered(listing, part) <==> exists k :: 0 <= k < |listing| && x in part(listing[k])
    decreases |listing|
  {
    if listing != [] {
      var init := listing[..|listing| - 1];
      GatheredIff(init, part, x);
      forall k | 0 <= k < |init| ensures init[k] == listing[k] { }
    }
  }

  /** A number is gathered exactly when some listed file yields it. */
  lemma CollectedIff(listing: seq<string>, ocr: string -> Option<string>, x: string)
    ensures x in Collected(listing, ocr) <==>
            exists k :: 0 <= k < |listing| && x in Extracted(listing[k], ocr)
  {
    GatheredIff(listing, name => Extracted(name, ocr), x);
  }

  /** Every gathered string is a whole match of the pattern, 9 to 19 characters long. */
  lemma CollectedAreNumbers(listing: seq<string>, ocr: string -> Option<string>, x: string)
    requires x in Collected(listing, ocr)
    ensures Accepts(PHONE, x) && 9 <= |x| <= 19
  {
    CollectedIff(listing, ocr, x);
    var k :| 0 <= k < |listing| && x in Extracted(listing[k], ocr);
    var t := ocr(listing[k]).value;
    var i :| 0 <= i < |FindAll(PHONE, t)| && FindAll(PHONE, t)[i] == x;
    FindAllAreNumbers(t, i);
  }

  /** The run fails exactly when some image file's OCR raises, and then at the first one. */
  lemma {:induction false} FirstFailureIff(listing: seq<string>, ocr: string -> Option<string>)
    ensures FirstFailure(listing, ocr).None? <==>
            forall k :: 0 <= k < |listing| ==> !Fails(listing[k], ocr)
    ensures FirstFailure(listing, ocr).Some? ==>
            exists k :: 0 <= k < |listing| && listing[k] == FirstFailure(listing, ocr).value &&
                        Fails(listing[k], ocr) && forall j :: 0 <= j < k ==> !Fails(listing[j], ocr)
    decreases |listing|
  {
    if listing != [] {
      var init := listing[..|listing| - 1];
      FirstFailureIff(init, ocr);
      forall k | 0 <= k < |init| ensures init[k] == listing[k] { }
    }
  }

  /** A failure among the first files is the failure of the whole listing. */
  lemma {:induction false} FirstFailurePrefix(listing: seq<string>, ocr: string -> Option<string>, i: nat)
    requires i <= |listing| && FirstFailure(listing[..i], ocr).Some?
    ensures FirstFailure(listing, ocr) == FirstFailure(listing[..i], ocr)
    decreases |listing| - i
  {
    if i < |listing| {
      assert listing[..i + 1][..i] == listing[..i];
      FirstFailurePrefix(listing, ocr, i + 1);
    } else {
      assert listing[..i] == listing;
    }
  }

  /**
   * os.listdir gives no particular order: the gathered set and whether the run fails
   * depend only on which names are listed.
   */
  lemma ListingOrderIrrelevant(l1: seq<string>, l2: seq<string>, ocr: string -> Option<string>)
    requires forall n :: n in l1 <==> n in l2
    ensures Collected(l1, ocr) == Collected(l2, ocr)
    ensures FirstFailure(l1, ocr).None? <==> FirstFailure(l2, ocr).None?
  {
    forall x ensures x in Collected(l1, ocr) <==> x in Collected(l2, ocr) {
      CollectedIff(l1, ocr, x);
      CollectedIff(l2, ocr, x);
      if x in Collected(l1, ocr) {
        var k :| 0 <= k < |l1| && x in Extracted(l1[k], ocr);
        assert l1[k] in l2;
      }
      if x in Collected(l2, ocr) {
        var k :| 0 <= k < |l2| && x in Extracted(l2[k], ocr);
        assert l2[k] in l1;
      }
    }
    FirstFailureIff(l1, ocr);
    FirstFailureIff(l2, ocr);
    if FirstFailure(l1, ocr).Some? {
      var k :| 0 <= k < |l1| && Fails(l1[k], ocr);
      assert l1[k] in l2;
    }
    if FirstFailure(l2, ocr).Some? {
      var k :| 0 <= k < |l2| && Fails(l2[k], ocr);
      assert l2[k] in l1;
    }
  }

  // ---------------------------------------------------------------- the output file

  /** How a run ends: an exception at an image file, or the lines written to the output file. */
  datatype Run = Aborted(file: string) | Written(lines: seq<string>)

  /** `lines` is what the write loop produces from `found`: `sorted(found)`, each stripped, with '\n'. */
  ghost predicate OutputFor(lines: seq<string>, found: set<string>) {
    exists sorted :: SortedListOf(sorted, found) && |lines| == |sorted| &&
      forall k :: 0 <= k < |lines| ==> lines[k] == Strip(sorted[k]) + "\n"
  }

  /** The line without its final newline. */
  function Entry(line: string): string {
    if |line| > 0 then line[..|line| - 1] else line
  }

  /** There is only one output for a given set of numbers. */
  lemma OutputUnique(lines1: seq<string>, lines2: seq<string>, found: set<string>)
    requires OutputFor(lines1, found) && OutputFor(lines2, found)
    ensures lines1 == lines2
  {
    var s1 :| SortedListOf(s1, found) && |lines1| == |s1| &&
      forall k :: 0 <= k < |lines1| ==> lines1[k] == Strip(s1[k]) + "\n";
    var s2 :| SortedListOf(s2, found) && |lines2| == |s2| &&
      forall k :: 0 <= k < |lines2| ==> lines2[k] == Strip(s2[k]) + "\n";
    SortedUnique(s1, s2);
  }

  /**
   * The strings passed to `f.write` for a listing, one per gathered number: each is a
   * number followed by '\n', every gathered number has its string, and the numbers go in
   * increasing order, so none is written twice.
   */
  lemma OutputLines(listing: seq<string>, ocr: string -> Option<string>, lines: seq<string>)
    requires OutputFor(lines, Collected(listing, ocr))
    ensures forall k :: 0 <= k < |lines| ==>
              lines[k] == Entry(lines[k]) + "\n" && Entry(lines[k]) in Collected(listing, ocr)
    ensures forall x :: x in Collected(listing, ocr) ==> x + "\n" in lines
    ensures forall i, j :: 0 <= i < j < |lines| ==> Less(Entry(lines[i]), Entry(lines[j]))
  {
    var found := Collected(listing, ocr);
    var s :| SortedListOf(s, found) && |lines| == |s| &&
      forall k :: 0 <= k < |lines| ==> lines[k] == Strip(s[k]) + "\n";
    forall k | 0 <= k < |lines| ensures lines[k] == s[k] + "\n" && Entry(lines[k]) == s[k] {
      assert s[k] in found;
      CollectedAreNumbers(listing, ocr, s[k]);
      StripKeepsNumber(s[k]);
      assert lines[k][..|lines[k]| - 1] == s[k];
    }
    forall x | x in found ensures x + "\n" in lines {
      var k :| 0 <= k < |s| && s[k] == x;
      assert lines[k] == x + "\n";
    }
  }

  /** The output for a single number is that number on one line. */
  lemma SingleOutput(w: string, lines: seq<string>)
    requires Accepts(PHONE, w) && OutputFor(lines, {w})
    ensures lines == [w + "\n"]
  {
    StripKeepsNumber(w);
    assert OutputFor([w + "\n"], {w}) by {
      assert SortedListOf([w], {w});
    }
    OutputUnique(lines, [w + "\n"], {w});
  }

  /** Two listings of the same names give the same output. */
  lemma SameNamesSameOutput(l1: seq<string>, l2: seq<string>, ocr: string -> Option<string>,
                            lines1: seq<string>, lines2: seq<string>)
    requires forall n :: n in l1 <==> n in l2
    requires OutputFor(lines1, Collected(l1, ocr)) && OutputFor(lines2, Collected(l2, ocr))
    ensures lines1 == lines2
  {
    ListingOrderIrrelevant(l1, l2, ocr);
    OutputUnique(lines1, lines2, Collected(l1, ocr));
  }

  /**
   * procesar_carpeta: goes over the listing, gathering the numbers of every image file into
   * a set, then writes them sorted, one string per gathered number passed to `f.write`,
   * each stripped and followed by '\n'.  An image whose OCR
   * raises ends the run before the output file is opened.
   */
  method ProcessFolder(listing: seq<string>, ocr: string -> Option<string>) returns (run: Run)
    ensures run.Aborted? <==> FirstFailure(listing, ocr).Some?
    ensures run.Aborted? ==> FirstFailure(listing, ocr) == Some(run.file)
    ensures run.Written? ==> OutputFor(run.lines, Collected(listing, ocr))
  {
    var found: set<string> := {};
    for i := 0 to |listing|
      invariant found == Collected(listing[..i], ocr)
      invariant FirstFailure(listing[..i], ocr).None?
    {
      var name := listing[i];
      CollectedStep(listing, ocr, i);
      assert listing[..i + 1][..i] == listing[..i];
      if IsImageName(name) {
        var text := ocr(name);
        if text.None? {
          FirstFailurePrefix(listing, ocr, i + 1);
          return Aborted(name);
        }
        found := found + Elements(FindAll(PHONE, text.value));
      }
    }
    assert listing[..|listing|] == listing;
    var sorted := Sorted(found);
    var lines: seq<string> := [];
    for k := 0 to |sorted|
      invariant |lines| == k
      invariant forall j :: 0 <= j < k ==> lines[j] == Strip(sorted[j]) + "\n"
    {
      lines := lines + [Strip(sorted[k]) + "\n"];
    }
    return Written(lines);
  }
}
