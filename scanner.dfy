/**
 * `re.findall(pattern, text)` for a pattern without groups that begins with a literal '+',
 * as REGEX_NUMERO does: a left-to-right scan that tries the pattern at each position,
 * keeps the match found there and resumes at its end, or moves on by one character when
 * there is none.  Such a pattern never matches the empty string, so findall's special
 * handling of empty matches never comes into play, and findall yields the whole matched
 * substrings.  extraer_numeros_imagen calls it as FindAll(PHONE, text).
 */
module Scanner {
  import opened Wrappers
  import opened PhonePattern

  /** A pattern that begins with the literal '+', as REGEX_NUMERO does. */
  predicate Anchored(p: seq<Atom>) {
    p != [] && p[0] == Lit('+')
  }

  /** The span [start, end) of one match in the text, as re.Match.span() gives it. */
  datatype Span = Span(start: nat, end: nat)

  /** The pattern tried at one position; a match is never empty, and it begins with '+'. */
  function MatchAt(p: seq<Atom>, s: string, i: nat): (r: Option<nat>)
    requires Anchored(p) && i <= |s|
    ensures r.Some? ==> i < r.value <= |s| && s[i] == '+'
  {
    Match(p, s, i)
  }

  /** A match found at `i` is a word of the pattern. */
  lemma MatchAtAccepts(p: seq<Atom>, s: string, i: nat)
    requires Anchored(p) && i <= |s| && MatchAt(p, s, i).Some?
    ensures Accepts(p, s[i..MatchAt(p, s, i).value])
  {
    MatchSound(p, s, i);
  }

  /** No match at `i` exactly when no prefix of `s[i..]` is a word of the pattern. */
  lemma MatchAtNoneIff(p: seq<Atom>, s: string, i: nat)
    requires Anchored(p) && i <= |s|
    ensures MatchAt(p, s, i).None? <==> forall j :: i <= j <= |s| ==> !Accepts(p, s[i..j])
  {
    MatchNoneIff(p, s, i);
  }

  /** Position `q` lies inside one of the spans. */
  ghost predicate Covered(r: seq<Span>, q: nat) {
    exists k :: 0 <= k < |r| && r[k].start <= q < r[k].end
  }

  /** Each span lies in `s[pos..]` and is the match found at its start. */
  ghost predicate SpansMatch(p: seq<Atom>, s: string, pos: nat, r: seq<Span>)
    requires Anchored(p)
  {
    forall k :: 0 <= k < |r| ==>
      pos <= r[k].start < r[k].end <= |s| && MatchAt(p, s, r[k].start) == Some(r[k].end)
  }

  /** Consecutive spans do not overlap. */
  ghost predicate SpansOrdered(r: seq<Span>) {
    forall k :: 0 <= k < |r| - 1 ==> r[k].end <= r[k + 1].start
  }

  /** Every position from `pos` where the pattern matches lies inside some span. */
  ghost predicate SpansCover(p: seq<Atom>, s: string, pos: nat, r: seq<Span>)
    requires Anchored(p) && pos <= |s|
  {
    forall q :: pos <= q <= |s| && MatchAt(p, s, q).Some? ==> Covered(r, q)
  }

  /**
   * What a findall scan of `s` from `pos` returns: spans in increasing order that do
   * not overlap, each the match found at its start, and no match at any position the
   * spans do not cover.
   */
  ghost predicate IsScan(p: seq<Atom>, s: string, pos: nat, r: seq<Span>)
    requires Anchored(p) && pos <= |s|
  {
    SpansMatch(p, s, pos, r) && SpansOrdered(r) && SpansCover(p, s, pos, r)
  }

  /** The scan itself, tried at every position from `pos` up to and including |s|. */
  function Scan(p: seq<Atom>, s: string, pos: nat): (r: seq<Span>)
    requires Anchored(p) && pos <= |s|
    ensures forall k :: 0 <= k < |r| ==> pos <= r[k].start < r[k].end <= |s|
    decreases |s| - pos
  {
    match MatchAt(p, s, pos)
    case Some(e) => [Span(pos, e)] + Scan(p, s, e)
    case None => if pos == |s| then [] else Scan(p, s, pos + 1)
  }

  /** The scan has the properties IsScan lists. */
  lemma {:induction false} ScanIsScan(p: seq<Atom>, s: string, pos: nat)
    requires Anchored(p) && pos <= |s|
    ensures IsScan(p, s, pos, Scan(p, s, pos))
    decreases |s| - pos
  {
    match MatchAt(p, s, pos)
    case Some(e) =>
      var rest := Scan(p, s, e);
      assert Scan(p, s, pos) == [Span(pos, e)] + rest;
      ScanIsScan(p, s, e);
      ScanFound(p, s, pos, e, rest);
    case None =>
      if pos < |s| {
        var rest := Scan(p, s, pos + 1);
        assert Scan(p, s, pos) == rest;
        ScanIsScan(p, s, pos + 1);
        ScanSkipped(p, s, pos, rest);
      }
  }

  /** A match at `pos` followed by a scan from its end is a scan from `pos`. */
  lemma ScanFound(p: seq<Atom>, s: string, pos: nat, e: nat, rest: seq<Span>)
    requires Anchored(p) && pos < e <= |s| && MatchAt(p, s, pos) == Some(e) && IsScan(p, s, e, rest)
    ensures IsScan(p, s, pos, [Span(pos, e)] + rest)
  {
    FoundMatch(p, s, pos, e, rest);
    FoundOrdered(e, rest);
    FoundCover(p, s, pos, e, rest);
  }

  /** The first span, then the spans from its end, each is the match at its start. */
  lemma FoundMatch(p: seq<Atom>, s: string, pos: nat, e: nat, rest: seq<Span>)
    requires Anchored(p) && pos < e <= |s| && MatchAt(p, s, pos) == Some(e) && SpansMatch(p, s, e, rest)
    ensures SpansMatch(p, s, pos, [Span(pos, e)] + rest)
  {
    var r := [Span(pos, e)] + rest;
    forall k | 0 <= k < |r|
      ensures pos <= r[k].start < r[k].end <= |s| && MatchAt(p, s, r[k].start) == Some(r[k].end)
    {
      if k > 0 { assert r[k] == rest[k - 1]; }
    }
  }

  /** A span ending at `e`, put before spans that start at `e` or later, keeps them ordered. */
  lemma FoundOrdered(e: nat, rest: seq<Span>)
    requires SpansOrdered(rest) && forall k :: 0 <= k < |rest| ==> e <= rest[k].start
    ensures forall pos :: SpansOrdered([Span(pos, e)] + rest)
  {
    forall pos, k | 0 <= k < |[Span(pos, e)] + rest| - 1
      ensures ([Span(pos, e)] + rest)[k].end <= ([Span(pos, e)] + rest)[k + 1].start
    {
      var r := [Span(pos, e)] + rest;
      if k > 0 { assert r[k] == rest[k - 1] && r[k + 1] == rest[k]; }
    }
  }

  /** Positions before `e` lie inside the first span; the later ones are covered by the rest. */
  lemma FoundCover(p: seq<Atom>, s: string, pos: nat, e: nat, rest: seq<Span>)
    requires Anchored(p) && pos < e <= |s| && SpansCover(p, s, e, rest)
    ensures SpansCover(p, s, pos, [Span(pos, e)] + rest)
  {
    var r := [Span(pos, e)] + rest;
    forall q | pos <= q <= |s| && MatchAt(p, s, q).Some? ensures Covered(r, q) {
      if q < e {
        assert r[0].start <= q < r[0].end;
      } else {
        var k :| 0 <= k < |rest| && rest[k].start <= q < rest[k].end;
        assert r[k + 1] == rest[k];
      }
    }
  }

  /** No match at `pos`: a scan from `pos + 1` is a scan from `pos`. */
  lemma ScanSkipped(p: seq<Atom>, s: string, pos: nat, rest: seq<Span>)
    requires Anchored(p) && pos < |s| && MatchAt(p, s, pos).None? && IsScan(p, s, pos + 1, rest)
    ensures IsScan(p, s, pos, rest)
  {
  }

  /** The scan is the only sequence of spans with the properties IsScan lists. */
  lemma {:induction false} ScanUnique(p: seq<Atom>, s: string, pos: nat, r: seq<Span>)
    requires Anchored(p) && pos <= |s| && IsScan(p, s, pos, r)
    ensures r == Scan(p, s, pos)
    decreases |s| - pos
  {
    match MatchAt(p, s, pos)
    case Some(e) =>
      FirstSpan(p, s, pos, e, r);
      TailScan(p, s, pos, r);
      ScanUnique(p, s, e, r[1..]);
      assert r == [Span(pos, e)] + r[1..];
    case None =>
      if pos == |s| {
        SpanCount(p, s, pos, r);
      } else {
        NextScan(p, s, pos, r);
        ScanUnique(p, s, pos + 1, r);
      }
  }

  /** When there is a match at `pos`, a scan from `pos` begins with it. */
  lemma FirstSpan(p: seq<Atom>, s: string, pos: nat, e: nat, r: seq<Span>)
    requires Anchored(p) && pos <= |s| && IsScan(p, s, pos, r) && MatchAt(p, s, pos) == Some(e)
    ensures |r| > 0 && r[0] == Span(pos, e)
  {
    assert Covered(r, pos);
    var k :| 0 <= k < |r| && r[k].start <= pos < r[k].end;
    if k > 0 {
      Ordered(p, s, pos, r, 0, k);
    }
  }

  /** The spans after the first form a scan from the first one's end. */
  lemma TailScan(p: seq<Atom>, s: string, pos: nat, r: seq<Span>)
    requires Anchored(p) && pos <= |s| && IsScan(p, s, pos, r) && |r| > 0
    ensures r[0].end <= |s| && IsScan(p, s, r[0].end, r[1..])
  {
    var e := r[0].end;
    var rest := r[1..];
    forall k | 0 <= k < |rest| ensures e <= rest[k].start {
      Ordered(p, s, pos, r, 0, k + 1);
    }
    forall k | 0 <= k < |rest| - 1 ensures rest[k].end <= rest[k + 1].start {
      assert rest[k] == r[k + 1] && rest[k + 1] == r[k + 2];
    }
  }

  /** With no match at `pos`, a scan from `pos` is a scan from `pos + 1`. */
  lemma NextScan(p: seq<Atom>, s: string, pos: nat, r: seq<Span>)
    requires Anchored(p) && pos < |s| && IsScan(p, s, pos, r) && MatchAt(p, s, pos).None?
    ensures IsScan(p, s, pos + 1, r)
  {
  }

  /** Every span holds at least one character, so a scan from `pos` has at most |s| - pos spans. */
  lemma {:induction false} SpanCount(p: seq<Atom>, s: string, pos: nat, r: seq<Span>)
    requires Anchored(p) && pos <= |s| && IsScan(p, s, pos, r)
    ensures |r| <= |s| - pos
    decreases |r|
  {
    if r != [] {
      TailScan(p, s, pos, r);
      SpanCount(p, s, r[0].end, r[1..]);
    }
  }

  /** Spans of a scan are ordered: an earlier span ends before a later one starts. */
  lemma {:induction false} Ordered(p: seq<Atom>, s: string, pos: nat, r: seq<Span>, i: nat, j: nat)
    requires Anchored(p) && pos <= |s| && IsScan(p, s, pos, r) && i < j < |r|
    ensures r[i].start < r[i].end <= r[j].start
    decreases j - i
  {
    if j > i + 1 {
      Ordered(p, s, pos, r, i + 1, j);
    }
  }

  /** `re.findall(p, s)`: the matched substrings, in scan order. */
  function FindAll(p: seq<Atom>, s: string): seq<string>
    requires Anchored(p)
  {
    var spans := Scan(p, s, 0);
    seq(|spans|, k requires 0 <= k < |spans| => s[spans[k].start..spans[k].end])
  }

  /**
   * Read through IsScan: findall gives one string per span of any sequence of spans with
   * the properties IsScan lists, each a word of the pattern beginning with '+'.
   */
  lemma FindAllIsScan(p: seq<Atom>, s: string, spans: seq<Span>)
    requires Anchored(p) && IsScan(p, s, 0, spans)
    ensures |FindAll(p, s)| == |spans|
    ensures forall k :: 0 <= k < |spans| ==> FindAll(p, s)[k] == s[spans[k].start..spans[k].end]
    ensures forall k :: 0 <= k < |spans| ==> Accepts(p, FindAll(p, s)[k]) && FindAll(p, s)[k][0] == '+'
  {
    ScanUnique(p, s, 0, spans);
    forall k | 0 <= k < |spans| ensures Accepts(p, FindAll(p, s)[k]) && FindAll(p, s)[k][0] == '+' {
      MatchAtAccepts(p, s, spans[k].start);
    }
  }

  /** Matches are contiguous, non-overlapping substrings of the text, in increasing order. */
  lemma FindAllInOrder(p: seq<Atom>, s: string, i: nat, j: nat)
    requires Anchored(p) && i < j < |Scan(p, s, 0)|
    ensures Scan(p, s, 0)[i].start < Scan(p, s, 0)[i].end <= Scan(p, s, 0)[j].start
    ensures Scan(p, s, 0)[j].end <= |s|
  {
    ScanIsScan(p, s, 0);
    Ordered(p, s, 0, Scan(p, s, 0), i, j);
  }

  /** The number of '+' characters in `s[pos..]`. */
  function Pluses(s: string, pos: nat): nat
    requires pos <= |s|
    decreases |s| - pos
  {
    if pos == |s| then 0 else (if s[pos] == '+' then 1 else 0) + Pluses(s, pos + 1)
  }

  /** A later start counts no more '+' characters. */
  lemma {:induction false} PlusesShrink(s: string, i: nat, j: nat)
    requires i <= j <= |s|
    ensures Pluses(s, j) <= Pluses(s, i)
    decreases j - i
  {
    if i < j {
      PlusesShrink(s, i + 1, j);
    }
  }

  /** A stretch without '+' counts none. */
  lemma {:induction false} NoPluses(s: string, pos: nat)
    requires pos <= |s| && '+' !in s[pos..]
    ensures Pluses(s, pos) == 0
    decreases |s| - pos
  {
    if pos < |s| {
      assert s[pos] == s[pos..][0];
      assert s[pos + 1..] == s[pos..][1..];
      NoPluses(s, pos + 1);
    }
  }

  /** Every match begins at a '+', so there are no more matches than '+' characters. */
  lemma {:induction false} PlusBound(p: seq<Atom>, s: string, pos: nat)
    requires Anchored(p) && pos <= |s|
    ensures |Scan(p, s, pos)| <= Pluses(s, pos)
    decreases |s| - pos
  {
    match MatchAt(p, s, pos)
    case Some(e) =>
      PlusBound(p, s, e);
      PlusesShrink(s, pos + 1, e);
    case None =>
      if pos < |s| {
        PlusBound(p, s, pos + 1);
      }
  }

  /** A text without a '+' yields no matches. */
  lemma NoPlusNoMatch(p: seq<Atom>, s: string)
    requires Anchored(p) && '+' !in s
    ensures FindAll(p, s) == []
  {
    assert s[0..] == s;
    NoPluses(s, 0);
    PlusBound(p, s, 0);
  }

  /** Positions without a '+' are passed over one by one. */
  lemma {:induction false} SkipTo(p: seq<Atom>, s: string, i: nat, j: nat)
    requires Anchored(p) && i <= j <= |s| && '+' !in s[i..j]
    ensures Scan(p, s, i) == Scan(p, s, j)
    decreases j - i
  {
    if i < j {
      assert s[i] == s[i..j][0];
      assert s[i + 1..j] == s[i..j][1..];
      SkipTo(p, s, i + 1, j);
    }
  }

  /** Once no '+' is left, the scan finds nothing more. */
  lemma ScanNoPlus(p: seq<Atom>, s: string, pos: nat)
    requires Anchored(p) && pos <= |s| && '+' !in s[pos..]
    ensures Scan(p, s, pos) == []
  {
    NoPluses(s, pos);
    PlusBound(p, s, pos);
  }

  // ---------------------------------------------------------------- the phone pattern

  /** Each string findall returns for REGEX_NUMERO is a whole phone-number match. */
  lemma FindAllAreNumbers(s: string, k: nat)
    requires k < |FindAll(PHONE, s)|
    ensures Accepts(PHONE, FindAll(PHONE, s)[k])
    ensures 9 <= |FindAll(PHONE, s)[k]| <= 19
    ensures FindAll(PHONE, s)[k][0] == '+' && IsDigit(FindAll(PHONE, s)[k][|FindAll(PHONE, s)[k]| - 1])
  {
    ScanIsScan(PHONE, s, 0);
    var sp := Scan(PHONE, s, 0)[k];
    var w := FindAll(PHONE, s)[k];
    assert w == s[sp.start..sp.end];
    MatchAtAccepts(PHONE, s, sp.start);
    PhoneShape(w);
  }

  /** Exactly `n` digits at `g`: no digit follows them. */
  predicate DigitRun(s: string, g: nat, n: nat) {
    Fits(Digit, s, g, n) && (g + n == |s| || !IsDigit(s[g + n]))
  }

  /** A digit repetition facing a run of `n` digits takes all `n` when the rest then matches. */
  lemma RunTaken(p: seq<Atom>, s: string, g: nat, n: nat)
    requires g <= |s| && p != [] && p[0].Rep? && p[0].k == Digit && p[0].lo <= n <= p[0].hi
    requires DigitRun(s, g, n) && Match(p[1..], s, g + n).Some?
    ensures Match(p, s, g) == Match(p[1..], s, g + n)
  {
    forall m | n < m <= p[0].hi ensures !Fits(Digit, s, g, m) {
      if g + m <= |s| {
        assert s[g..g + m][n] == s[g + n];
      }
    }
    RepTakes(p, s, g, n);
  }

  /** An optional separator that is present is taken when the rest then matches. */
  lemma SepTaken(p: seq<Atom>, s: string, j: nat)
    requires j < |s| && p != [] && p[0].Opt? && InClass(p[0].k, s[j])
    requires Match(p[1..], s, j + 1).Some?
    ensures Match(p, s, j) == Match(p[1..], s, j + 1)
  {
  }

  /** The two groups at the end: a run of `c` digits, a separator and a run of `d` digits. */
  lemma LastGroups(s: string, g3: nat, c: nat, d: nat)
    requires g3 + c + d + 1 <= |s|
    requires 3 <= c <= 4 && DigitRun(s, g3, c) && InClass(SpaceOrDash, s[g3 + c])
    requires 3 <= d <= 4 && DigitRun(s, g3 + c + 1, d)
    ensures Match(PHONE[5..], s, g3) == Some(g3 + c + d + 1)
  {
    var g4 := g3 + c + 1;
    var e := g4 + d;
    assert Match(PHONE[7..], s, g4) == Some(e) by {
      assert PHONE[7..][1..] == [];
      RunTaken(PHONE[7..], s, g4, d);
    }
    assert Match(PHONE[6..], s, g4 - 1) == Some(e) by {
      assert PHONE[6..][1..] == PHONE[7..];
      SepTaken(PHONE[6..], s, g4 - 1);
    }
    assert PHONE[5..][1..] == PHONE[6..];
    RunTaken(PHONE[5..], s, g3, c);
  }

  /** The second group and the separators around it, in front of the last two groups. */
  lemma MiddleGroup(s: string, g2: nat, b: nat, e: nat)
    requires g2 + b + 1 <= |s| && 1 <= b <= 4 && DigitRun(s, g2, b) && InClass(SpaceOrDash, s[g2 + b])
    requires Match(PHONE[5..], s, g2 + b + 1) == Some(e)
    ensures Match(PHONE[3..], s, g2) == Some(e)
  {
    assert Match(PHONE[4..], s, g2 + b) == Some(e) by {
      assert PHONE[4..][1..] == PHONE[5..];
      SepTaken(PHONE[4..], s, g2 + b);
    }
    assert PHONE[3..][1..] == PHONE[4..];
    RunTaken(PHONE[3..], s, g2, b);
  }

  /** The '+', the first group and the optional space, in front of the other three groups. */
  lemma LeadingGroup(s: string, i: nat, a: nat, e: nat)
    requires i + a + 1 < |s| && s[i] == '+'
    requires 1 <= a <= 3 && DigitRun(s, i + 1, a) && IsSpace(s[i + a + 1])
    requires Match(PHONE[3..], s, i + a + 2) == Some(e)
    ensures MatchAt(PHONE, s, i) == Some(e)
  {
    assert Match(PHONE[2..], s, i + a + 1) == Some(e) by {
      assert PHONE[2..][1..] == PHONE[3..];
      SepTaken(PHONE[2..], s, i + a + 1);
    }
    assert Match(PHONE[1..], s, i + 1) == Some(e) by {
      assert PHONE[1..][1..] == PHONE[2..];
      RunTaken(PHONE[1..], s, i + 1, a);
    }
  }

  /**
   * A '+' and four digit runs of lengths `a`, `b`, `c`, `d` within the pattern's bounds,
   * with one separator between consecutive runs, is matched whole.
   */
  lemma SeparatedGroups(s: string, i: nat, a: nat, b: nat, c: nat, d: nat)
    requires i + a + b + c + d + 4 <= |s| && s[i] == '+'
    requires 1 <= a <= 3 && DigitRun(s, i + 1, a) && IsSpace(s[i + a + 1])
    requires 1 <= b <= 4 && DigitRun(s, i + a + 2, b) && InClass(SpaceOrDash, s[i + a + b + 2])
    requires 3 <= c <= 4 && DigitRun(s, i + a + b + 3, c) && InClass(SpaceOrDash, s[i + a + b + c + 3])
    requires 3 <= d <= 4 && DigitRun(s, i + a + b + c + 4, d)
    ensures MatchAt(PHONE, s, i) == Some(i + a + b + c + d + 4)
  {
    var g2 := i + a + 2;
    var e := i + a + b + c + d + 4;
    LastGroups(s, g2 + b + 1, c, d);
    MiddleGroup(s, g2, b, e);
    LeadingGroup(s, i, a, e);
  }
}
