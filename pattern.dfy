/**
 * The phone-number pattern of extraer_numeros.py and a backtracking matcher for it.
 *
 * The pattern  \+\d{1,3}\s?\d{1,4}[\s-]?\d{3,4}[\s-]?\d{3,4}  is a fixed sequence of
 * atoms: a literal '+', bounded greedy repetitions of a character class, and optional
 * (greedy `?`) single characters of a class.  `Match` follows the order in which a
 * backtracking engine such as Python's `re` explores the alternatives at one start
 * position: a repetition tries its largest count first, an optional character is tried
 * present before absent, and the first alternative that completes the whole pattern wins.
 * `Accepts` is the declarative language of an atom list, against which `Match` is proved
 * sound and complete.
 */
module PhonePattern {
  import opened Wrappers

  /** `\d`, restricted to the ASCII digits. */
  predicate IsDigit(c: char) {
    '0' <= c <= '9'
  }

  /**
   * Python's whitespace (`\s` in a str pattern, and what `str.strip()` removes):
   * U+0009..U+000D, U+001C..U+0020, U+0085, U+00A0, U+1680, U+2000..U+200A,
   * U+2028, U+2029, U+202F, U+205F, U+3000.
   */
  predicate IsSpace(c: char) {
    var n := c as int;
    (0x09 <= n <= 0x0D) || (0x1C <= n <= 0x20) || n == 0x85 || n == 0xA0 || n == 0x1680
    || (0x2000 <= n <= 0x200A) || n == 0x2028 || n == 0x2029 || n == 0x202F || n == 0x205F
    || n == 0x3000
  }

  /** The character classes the pattern uses: `\d`, `\s` and `[\s-]`. */
  datatype CharClass = Digit | Space | SpaceOrDash

  predicate InClass(k: CharClass, c: char) {
    match k
    case Digit => IsDigit(c)
    case Space => IsSpace(c)
    case SpaceOrDash => IsSpace(c) || c == '-'
  }

  predicate AllIn(k: CharClass, w: string) {
    forall i :: 0 <= i < |w| ==> InClass(k, w[i])
  }

  /** The `n` characters of `s` from position `i` exist and all belong to class `k`. */
  predicate Fits(k: CharClass, s: string, i: nat, n: nat) {
    i + n <= |s| && AllIn(k, s[i..i + n])
  }

  /** One atom of the pattern: a literal character, `k?`, or `k{lo,hi}`. */
  datatype Atom = Lit(c: char) | Opt(k: CharClass) | Rep(k: CharClass, lo: nat, hi: nat)

  /** REGEX_NUMERO, atom by atom. */
  const PHONE: seq<Atom> := [
    Lit('+'), Rep(Digit, 1, 3), Opt(Space), Rep(Digit, 1, 4),
    Opt(SpaceOrDash), Rep(Digit, 3, 4), Opt(SpaceOrDash), Rep(Digit, 3, 4)
  ]

  /** The set of words an atom list denotes (order-free: this is what, not how). */
  ghost predicate Accepts(p: seq<Atom>, w: string)
    decreases |p|
  {
    if p == [] then w == []
    else match p[0]
      case Lit(c) => |w| > 0 && w[0] == c && Accepts(p[1..], w[1..])
      case Opt(k) => Accepts(p[1..], w) || (|w| > 0 && InClass(k, w[0]) && Accepts(p[1..], w[1..]))
      case Rep(k, lo, hi) =>
        exists n :: lo <= n <= hi && n <= |w| && AllIn(k, w[..n]) && Accepts(p[1..], w[n..])
  }

  /**
   * The backtracking matcher at position `i` of `s`: the end of the first way, in
   * backtracking order, in which `p` matches a prefix of `s[i..]`, or None.
   */
  function Match(p: seq<Atom>, s: string, i: nat): (r: Option<nat>)
    requires i <= |s|
    ensures r.Some? ==> i <= r.value <= |s|
    decreases |p|, 1, 0
  {
    if p == [] then Some(i)
    else match p[0]
      case Lit(c) =>
        if i < |s| && s[i] == c then
          Match(p[1..], s, i + 1)
        else None
      case Opt(k) =>
        var taken := if i < |s| && InClass(k, s[i]) then Match(p[1..], s, i + 1) else None;
        if taken.Some? then taken else Match(p[1..], s, i)
      case Rep(k, lo, hi) => MatchRep(p, s, i, hi)
  }

  /** The repetition at the head of `p`, trying counts `n`, `n - 1`, ..., `lo` in turn. */
  function MatchRep(p: seq<Atom>, s: string, i: nat, n: nat): (r: Option<nat>)
    requires i <= |s| && p != [] && p[0].Rep? && n <= p[0].hi
    ensures r.Some? ==> i <= r.value <= |s|
    decreases |p|, 0, n
  {
    if n < p[0].lo then None
    else
      var tried := if Fits(p[0].k, s, i, n) then Match(p[1..], s, i + n) else None;
      if tried.Some? then tried
      else if n == 0 then None
      else MatchRep(p, s, i, n - 1)
  }

  /** Soundness: what the matcher consumes is a word of the language. */
  lemma {:induction false} MatchSound(p: seq<Atom>, s: string, i: nat)
    requires i <= |s| && Match(p, s, i).Some?
    ensures Accepts(p, s[i..Match(p, s, i).value])
    decreases |p|, 1, 0
  {
    var j := Match(p, s, i).value;
    if p != [] {
      match p[0]
      case Lit(c) =>
        MatchSound(p[1..], s, i + 1);
        assert s[i..j][1..] == s[i + 1..j];
      case Opt(k) =>
        if i < |s| && InClass(k, s[i]) && Match(p[1..], s, i + 1).Some? {
          MatchSound(p[1..], s, i + 1);
          assert s[i..j][1..] == s[i + 1..j];
        } else {
          MatchSound(p[1..], s, i);
        }
      case Rep(k, lo, hi) =>
        MatchRepSound(p, s, i, hi);
    }
  }

  lemma {:induction false} MatchRepSound(p: seq<Atom>, s: string, i: nat, n: nat)
    requires i <= |s| && p != [] && p[0].Rep? && n <= p[0].hi && MatchRep(p, s, i, n).Some?
    ensures Accepts(p, s[i..MatchRep(p, s, i, n).value])
    decreases |p|, 0, n
  {
    var j := MatchRep(p, s, i, n).value;
    if Fits(p[0].k, s, i, n) && Match(p[1..], s, i + n).Some? {
      MatchSound(p[1..], s, i + n);
      assert s[i..j][..n] == s[i..i + n] && s[i..j][n..] == s[i + n..j];
    } else {
      MatchRepSound(p, s, i, n - 1);
    }
  }

  /** Completeness: whenever some prefix of `s[i..]` is in the language, the matcher succeeds. */
  lemma {:induction false} MatchComplete(p: seq<Atom>, s: string, i: nat, j: nat)
    requires i <= j <= |s| && Accepts(p, s[i..j])
    ensures Match(p, s, i).Some?
    decreases |p|
  {
    var w := s[i..j];
    if p != [] {
      match p[0]
      case Lit(c) =>
        assert w[1..] == s[i + 1..j];
        MatchComplete(p[1..], s, i + 1, j);
      case Opt(k) =>
        if Accepts(p[1..], w) {
          MatchComplete(p[1..], s, i, j);
        } else {
          assert w[1..] == s[i + 1..j];
          MatchComplete(p[1..], s, i + 1, j);
        }
      case Rep(k, lo, hi) =>
        var n :| lo <= n <= hi && n <= |w| && AllIn(k, w[..n]) && Accepts(p[1..], w[n..]);
        assert w[..n] == s[i..i + n] && w[n..] == s[i + n..j];
        MatchComplete(p[1..], s, i + n, j);
        MatchRepComplete(p, s, i, hi, n);
    }
  }

  lemma {:induction false} MatchRepComplete(p: seq<Atom>, s: string, i: nat, m: nat, n: nat)
    requires i <= |s| && p != [] && p[0].Rep?
    requires p[0].lo <= n <= m <= p[0].hi && Fits(p[0].k, s, i, n)
    requires Match(p[1..], s, i + n).Some?
    ensures MatchRep(p, s, i, m).Some?
    decreases m
  {
    if m > n {
      MatchRepComplete(p, s, i, m - 1, n);
    }
  }

  /**
   * Greedy repetition: when count `n` is the largest the characters allow and the rest of
   * the pattern matches after it, the repetition settles on `n`.
   */
  lemma RepTakes(p: seq<Atom>, s: string, i: nat, n: nat)
    requires i <= |s| && p != [] && p[0].Rep? && p[0].lo <= n <= p[0].hi
    requires Fits(p[0].k, s, i, n) && Match(p[1..], s, i + n).Some?
    requires forall m :: n < m <= p[0].hi ==> !Fits(p[0].k, s, i, m)
    ensures Match(p, s, i) == Match(p[1..], s, i + n)
  {
    RepTakesFrom(p, s, i, p[0].hi, n);
  }

  lemma {:induction false} RepTakesFrom(p: seq<Atom>, s: string, i: nat, m: nat, n: nat)
    requires i <= |s| && p != [] && p[0].Rep? && p[0].lo <= n <= m <= p[0].hi
    requires Fits(p[0].k, s, i, n) && Match(p[1..], s, i + n).Some?
    requires forall c :: n < c <= p[0].hi ==> !Fits(p[0].k, s, i, c)
    ensures MatchRep(p, s, i, m) == Match(p[1..], s, i + n)
    decreases m - n
  {
    if m > n {
      RepTakesFrom(p, s, i, m - 1, n);
    }
  }

  /** The matcher fails exactly when no prefix of `s[i..]` is in the language. */
  lemma MatchNoneIff(p: seq<Atom>, s: string, i: nat)
    requires i <= |s|
    ensures Match(p, s, i).None? <==> forall j :: i <= j <= |s| ==> !Accepts(p, s[i..j])
  {
    if Match(p, s, i).Some? {
      MatchSound(p, s, i);
    }
    forall j | i <= j <= |s| && Accepts(p, s[i..j]) {
      MatchComplete(p, s, i, j);
    }
  }

  /** The shortest and longest words an atom list accepts. */
  function MinLen(p: seq<Atom>): nat {
    if p == [] then 0
    else (match p[0] case Lit(_) => 1 case Opt(_) => 0 case Rep(_, lo, _) => lo) + MinLen(p[1..])
  }

  function MaxLen(p: seq<Atom>): nat {
    if p == [] then 0
    else (match p[0] case Lit(_) => 1 case Opt(_) => 1 case Rep(_, _, hi) => hi) + MaxLen(p[1..])
  }

  lemma {:induction false} LengthBounds(p: seq<Atom>, w: string)
    requires Accepts(p, w)
    ensures MinLen(p) <= |w| <= MaxLen(p)
    decreases |p|
  {
    if p != [] {
      match p[0]
      case Lit(c) => LengthBounds(p[1..], w[1..]);
      case Opt(k) =>
        if Accepts(p[1..], w) { LengthBounds(p[1..], w); } else { LengthBounds(p[1..], w[1..]); }
      case Rep(k, lo, hi) =>
        var n :| lo <= n <= hi && n <= |w| && AllIn(k, w[..n]) && Accepts(p[1..], w[n..]);
        LengthBounds(p[1..], w[n..]);
    }
  }

  /** A character an atom can consume. */
  predicate Allows(a: Atom, c: char) {
    match a
    case Lit(d) => c == d
    case Opt(k) => InClass(k, c)
    case Rep(k, _, _) => InClass(k, c)
  }

  /** Every character of an accepted word is consumed by some atom of the list. */
  lemma {:induction false} CharsAllowed(p: seq<Atom>, w: string, i: nat)
    requires Accepts(p, w) && i < |w|
    ensures exists j :: 0 <= j < |p| && Allows(p[j], w[i])
    decreases |p|
  {
    if p == [] {
    } else {
      match p[0]
      case Lit(c) =>
        if i > 0 {
          CharsAllowed(p[1..], w[1..], i - 1);
          var j :| 0 <= j < |p[1..]| && Allows(p[1..][j], w[1..][i - 1]);
          assert Allows(p[j + 1], w[i]);
        } else {
          assert Allows(p[0], w[i]);
        }
      case Opt(k) =>
        if Accepts(p[1..], w) {
          CharsAllowed(p[1..], w, i);
          var j :| 0 <= j < |p[1..]| && Allows(p[1..][j], w[i]);
          assert Allows(p[j + 1], w[i]);
        } else if i > 0 {
          CharsAllowed(p[1..], w[1..], i - 1);
          var j :| 0 <= j < |p[1..]| && Allows(p[1..][j], w[1..][i - 1]);
          assert Allows(p[j + 1], w[i]);
        } else {
          assert Allows(p[0], w[i]);
        }
      case Rep(k, lo, hi) =>
        var n :| lo <= n <= hi && n <= |w| && AllIn(k, w[..n]) && Accepts(p[1..], w[n..]);
        if i >= n {
          CharsAllowed(p[1..], w[n..], i - n);
          var j :| 0 <= j < |p[1..]| && Allows(p[1..][j], w[n..][i - n]);
          assert Allows(p[j + 1], w[i]);
        } else {
          assert w[..n][i] == w[i];
          assert Allows(p[0], w[i]);
        }
    }
  }

  /** When the list ends in a mandatory repetition of `k`, every accepted word ends in `k`. */
  lemma {:induction false} LastInClass(p: seq<Atom>, w: string)
    requires Accepts(p, w) && p != [] && p[|p| - 1].Rep? && p[|p| - 1].lo >= 1
    ensures |w| > 0 && InClass(p[|p| - 1].k, w[|w| - 1])
    decreases |p|
  {
    if |p| == 1 {
      var n :| p[0].lo <= n <= p[0].hi && n <= |w| && AllIn(p[0].k, w[..n]) && Accepts(p[1..], w[n..]);
      assert w[..n][n - 1] == w[|w| - 1];
    } else {
      assert p[1..][|p[1..]| - 1] == p[|p| - 1];
      match p[0]
      case Lit(c) =>
        LastInClass(p[1..], w[1..]);
      case Opt(k) =>
        if Accepts(p[1..], w) { LastInClass(p[1..], w); } else { LastInClass(p[1..], w[1..]); }
      case Rep(k, lo, hi) =>
        var n :| lo <= n <= hi && n <= |w| && AllIn(k, w[..n]) && Accepts(p[1..], w[n..]);
        LastInClass(p[1..], w[n..]);
    }
  }

  /**
   * The shape of every word REGEX_NUMERO matches: a '+', then only digits, whitespace
   * and '-', ending in a digit, 9 to 19 characters long.
   */
  lemma PhoneShape(w: string)
    requires Accepts(PHONE, w)
    ensures 9 <= |w| <= 19
    ensures w[0] == '+' && IsDigit(w[|w| - 1])
    ensures forall i :: 1 <= i < |w| ==> IsDigit(w[i]) || IsSpace(w[i]) || w[i] == '-'
  {
    PhoneLengths();
    LengthBounds(PHONE, w);
    LastInClass(PHONE, w);
    AcceptsLit(PHONE, w);
    var tail := PHONE[1..];
    PhoneTailAllows(tail);
    forall i | 1 <= i < |w| ensures IsDigit(w[i]) || IsSpace(w[i]) || w[i] == '-' {
      CharsAllowed(tail, w[1..], i - 1);
    }
  }

  lemma PhoneLengths()
    ensures MinLen(PHONE) == 9 && MaxLen(PHONE) == 19
  {
  }

  /** After the '+', the phone pattern consumes only digits, whitespace and '-'. */
  lemma PhoneTailAllows(tail: seq<Atom>)
    requires tail == PHONE[1..]
    ensures forall j, c :: 0 <= j < |tail| && Allows(tail[j], c) ==> IsDigit(c) || IsSpace(c) || c == '-'
  {
  }

  /** A word of a list that begins with a literal begins with that character. */
  lemma AcceptsLit(p: seq<Atom>, w: string)
    requires p != [] && p[0].Lit? && Accepts(p, w)
    ensures |w| > 0 && w[0] == p[0].c && Accepts(p[1..], w[1..])
  {
  }
}
