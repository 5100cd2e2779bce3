/**
 * The parts of Go's `strings` package that the service and its scripts call:
 * `Index`, `Contains`, `HasPrefix`, `HasSuffix`, `Split`, `SplitAfter`, `Join`,
 * `TrimSuffix` and `TrimRight`, each with the laws the callers rely on.
 */
module Strings {
  import opened Wrappers

  /** `sep` occurs in `s` starting at position `i`. */
  predicate OccursAt(s: string, sep: string, i: nat) {
    i + |sep| <= |s| && s[i..i + |sep|] == sep
  }

  /** Occurrences in `s[1..]` are the occurrences in `s` shifted left by one. */
  lemma {:induction false} OccursShift(s: string, sep: string)
    requires |s| > 0
    ensures forall k: nat :: OccursAt(s[1..], sep, k) ==> OccursAt(s, sep, k + 1)
    ensures forall j: nat :: j >= 1 && OccursAt(s, sep, j) ==> OccursAt(s[1..], sep, j - 1)
  {
    forall k: nat ensures OccursAt(s[1..], sep, k) <==> OccursAt(s, sep, k + 1) {
      if k + 1 + |sep| <= |s| {
        assert s[1..][k..k + |sep|] == s[k + 1..k + 1 + |sep|];
      }
    }
  }

  /** strings.Index: the first position at which `sep` occurs in `s`, or None (Go's -1). */
  function Index(s: string, sep: string): (r: Option<nat>)
    decreases |s|
    ensures r.Some? ==> OccursAt(s, sep, r.value)
    ensures r.Some? ==> forall j: nat :: j < r.value ==> !OccursAt(s, sep, j)
    ensures r.None? ==> forall j: nat :: !OccursAt(s, sep, j)
  {
    if |s| < |sep| then None
    else if s[..|sep|] == sep then Some(0)
    else
      OccursShift(s, sep);
      match Index(s[1..], sep)
      case None => None
      case Some(k) => Some(k + 1)
  }

  /** The first occurrence is the only position that `Index` can report. */
  lemma {:induction false} IndexIsFirst(s: string, sep: string, k: nat)
    requires OccursAt(s, sep, k)
    requires forall j: nat :: j < k ==> !OccursAt(s, sep, j)
    ensures Index(s, sep) == Some(k)
  {
  }

  /** strings.Contains. */
  predicate Contains(s: string, sub: string) {
    Index(s, sub).Some?
  }

  lemma {:induction false} ContainsAt(s: string, sub: string, i: nat)
    requires OccursAt(s, sub, i)
    ensures Contains(s, sub)
  {
  }

  predicate HasPrefix(s: string, prefix: string) {
    |prefix| <= |s| && s[..|prefix|] == prefix
  }

  /** A string that starts with `a` and continues with `b` is `a + b`, and contains `b`. */
  lemma {:induction false} PrefixThen(s: string, a: string, b: string)
    requires HasPrefix(s, a) && s[|a|..] == b
    ensures s == a + b && Contains(s, b)
  {
    assert s == s[..|a|] + s[|a|..];
    assert s[|a|..|a| + |b|] == b;
    ContainsAt(s, b, |a|);
  }

  predicate HasSuffix(s: string, suffix: string) {
    |suffix| <= |s| && s[|s| - |suffix|..] == suffix
  }

  /** strings.Split for a non-empty separator: the pieces between the occurrences of `sep`. */
  function Split(s: string, sep: string): (r: seq<string>)
    requires |sep| > 0
    decreases |s|
    ensures |r| >= 1
  {
    match Index(s, sep)
    case None => [s]
    case Some(i) => [s[..i]] + Split(s[i + |sep|..], sep)
  }

  /** strings.SplitAfter for a non-empty separator: like Split, but every piece keeps its `sep`. */
  function SplitAfter(s: string, sep: string): (r: seq<string>)
    requires |sep| > 0
    decreases |s|
    ensures |r| >= 1
  {
    match Index(s, sep)
    case None => [s]
    case Some(i) => [s[..i + |sep|]] + SplitAfter(s[i + |sep|..], sep)
  }

  /** strings.Join. */
  function Join(parts: seq<string>, sep: string): string {
    if |parts| == 0 then ""
    else if |parts| == 1 then parts[0]
    else parts[0] + sep + Join(parts[1..], sep)
  }

  /** The pieces glued back together with nothing between them. */
  function Concat(parts: seq<string>): string {
    if |parts| == 0 then "" else parts[0] + Concat(parts[1..])
  }

  /** strings.TrimSuffix. */
  function TrimSuffix(s: string, suffix: string): (r: string)
    ensures HasSuffix(s, suffix) ==> r + suffix == s
    ensures !HasSuffix(s, suffix) ==> r == s
  {
    if HasSuffix(s, suffix) then s[..|s| - |suffix|] else s
  }

  /** strings.TrimRight: drops every trailing character that is in `cutset`. */
  function TrimRight(s: string, cutset: string): (r: string)
    decreases |s|
    ensures HasPrefix(s, r)
    ensures |r| > 0 ==> r[|r| - 1] !in cutset
    ensures forall i :: |r| <= i < |s| ==> s[i] in cutset
  {
    if |s| > 0 && s[|s| - 1] in cutset then TrimRight(s[..|s| - 1], cutset) else s
  }

  /** Splitting separates exactly at `sep`: more than one piece iff `sep` occurs. */
  lemma {:induction false} SplitCount(s: string, sep: string)
    requires |sep| > 0
    ensures |Split(s, sep)| > 1 <==> Contains(s, sep)
    ensures |SplitAfter(s, sep)| > 1 <==> Contains(s, sep)
  {
  }

  /** Joining the pieces of a Split with the same separator gives back the input. */
  lemma {:induction false} JoinSplit(s: string, sep: string)
    requires |sep| > 0
    ensures Join(Split(s, sep), sep) == s
    decreases |s|
  {
    match Index(s, sep)
    case None =>
    case Some(i) =>
      var rest := s[i + |sep|..];
      var pieces := Split(rest, sep);
      JoinSplit(rest, sep);
      assert Split(s, sep) == [s[..i]] + pieces;
      assert ([s[..i]] + pieces)[1..] == pieces;
      assert Join([s[..i]] + pieces, sep) == s[..i] + sep + Join(pieces, sep);
      assert s == s[..i] + sep + rest;
  }

  /** No piece of a Split contains the separator. */
  lemma {:induction false} SplitPiecesFree(s: string, sep: string)
    requires |sep| > 0
    ensures forall k :: 0 <= k < |Split(s, sep)| ==> !Contains(Split(s, sep)[k], sep)
    decreases |s|
  {
    match Index(s, sep)
    case None =>
    case Some(i) =>
      var rest := s[i + |sep|..];
      SplitPiecesFree(rest, sep);
      var head := s[..i];
      forall j: nat ensures !OccursAt(head, sep, j) {
        if OccursAt(head, sep, j) {
          assert head[j..j + |sep|] == s[j..j + |sep|];
          assert OccursAt(s, sep, j);
        }
      }
  }

  /** Gluing the pieces of a SplitAfter back together gives back the input. */
  lemma {:induction false} ConcatSplitAfter(s: string, sep: string)
    requires |sep| > 0
    ensures Concat(SplitAfter(s, sep)) == s
    decreases |s|
  {
    match Index(s, sep)
    case None =>
    case Some(i) =>
      var rest := s[i + |sep|..];
      ConcatSplitAfter(rest, sep);
      assert s == s[..i + |sep|] + rest;
  }

  /** SplitAfter yields the pieces of Split, each but the last followed by its separator. */
  lemma {:induction false} SplitAfterIsSplit(s: string, sep: string)
    requires |sep| > 0
    ensures |SplitAfter(s, sep)| == |Split(s, sep)|
    ensures forall k :: 0 <= k < |Split(s, sep)| - 1 ==> SplitAfter(s, sep)[k] == Split(s, sep)[k] + sep
    ensures SplitAfter(s, sep)[|Split(s, sep)| - 1] == Split(s, sep)[|Split(s, sep)| - 1]
    decreases |s|
  {
    match Index(s, sep)
    case None =>
    case Some(i) =>
      var rest := s[i + |sep|..];
      SplitAfterIsSplit(rest, sep);
      var whole, pieces := SplitAfter(s, sep), Split(s, sep);
      var after, restPieces := SplitAfter(rest, sep), Split(rest, sep);
      assert s[..i + |sep|] == s[..i] + sep;
      assert whole == [s[..i] + sep] + after;
      assert pieces == [s[..i]] + restPieces;
      forall k | 0 <= k < |pieces| - 1 ensures whole[k] == pieces[k] + sep {
        if k > 0 {
          assert whole[k] == after[k - 1] && pieces[k] == restPieces[k - 1];
        }
      }
      assert whole[|pieces| - 1] == after[|restPieces| - 1];
  }

  /** A string without the separator's one character does not contain the separator. */
  lemma {:induction false} FreeOfChar(p: string, sep: string)
    requires |sep| == 1 && sep[0] !in p
    ensures !Contains(p, sep)
  {
  }

  /** A string that does not contain a one-character separator lacks its character. */
  lemma {:induction false} CharFree(p: string, sep: string)
    requires |sep| == 1 && !Contains(p, sep)
    ensures sep[0] !in p
  {
    if sep[0] in p {
      var j :| 0 <= j < |p| && p[j] == sep[0];
      assert p[j..j + 1] == sep;
      assert OccursAt(p, sep, j);
    }
  }

  /** With a one-character separator, the first occurrence after a sep-free prefix is right behind it. */
  lemma {:induction false} IndexBehindFreePrefix(p: string, sep: string, t: string)
    requires |sep| == 1 && !Contains(p, sep)
    ensures Index(p + sep + t, sep) == Some(|p|)
  {
    var s := p + sep + t;
    assert s[|p|..|p| + 1] == sep;
    forall j: nat | j < |p| ensures !OccursAt(s, sep, j) {
      assert s[j..j + 1] == p[j..j + 1];
      assert !OccursAt(p, sep, j);
    }
    IndexIsFirst(s, sep, |p|);
  }

  /**
   * Splitting a Join with a one-character separator gives back the parts,
   * provided no part contains the separator.
   */
  lemma {:induction false} SplitJoin(parts: seq<string>, sep: string)
    requires |sep| == 1 && |parts| >= 1
    requires forall k :: 0 <= k < |parts| ==> !Contains(parts[k], sep)
    ensures Split(Join(parts, sep), sep) == parts
  {
    if |parts| == 1 {
    } else {
      var rest := Join(parts[1..], sep);
      IndexBehindFreePrefix(parts[0], sep, rest);
      var s := parts[0] + sep + rest;
      var n := |parts[0]|;
      assert Join(parts, sep) == s;
      assert s[..n] == parts[0];
      assert s[n + 1..] == rest;
      assert Split(s, sep) == [s[..n]] + Split(s[n + 1..], sep);
      SplitJoin(parts[1..], sep);
      assert parts == [parts[0]] + parts[1..];
    }
  }

  /** Appending one more part adds one separator and the part at the end. */
  lemma {:induction false} JoinSnoc(parts: seq<string>, x: string, sep: string)
    requires |parts| >= 1
    ensures Join(parts + [x], sep) == Join(parts, sep) + sep + x
  {
    if |parts| == 1 {
    } else {
      assert (parts + [x])[1..] == parts[1..] + [x];
      JoinSnoc(parts[1..], x, sep);
    }
  }

  /** The text of `s` up to and including the first `sep`, or all of `s` when it has none. */
  function ThroughFirst(s: string, sep: string): (r: string)
    ensures HasPrefix(s, r)
    ensures Contains(s, sep) ==> |r| == Index(s, sep).value + |sep| && HasSuffix(r, sep)
    ensures !Contains(s, sep) ==> r == s
  {
    match Index(s, sep)
    case None => s
    case Some(i) => s[..i + |sep|]
  }

  /** The text of `s` after its first `sep`. */
  function AfterFirst(s: string, sep: string): (r: string)
    requires Contains(s, sep)
    ensures ThroughFirst(s, sep) + r == s
  {
    s[Index(s, sep).value + |sep|..]
  }

  /**
   * The first two pieces of a SplitAfter: through the first separator, then
   * from there through the second one.
   */
  lemma {:induction false} SplitAfterPieces(s: string, sep: string)
    requires |sep| > 0
    ensures SplitAfter(s, sep)[0] == ThroughFirst(s, sep)
    ensures Contains(s, sep) ==>
      |SplitAfter(s, sep)| > 1 && SplitAfter(s, sep)[1] == ThroughFirst(AfterFirst(s, sep), sep)
  {
  }

  /** A character of `s` equal to the one character of `sep` is an occurrence of `sep`. */
  lemma {:induction false} CharOccurs(s: string, sep: string, j: nat)
    requires |sep| == 1 && j < |s| && s[j] == sep[0]
    ensures Contains(s, sep)
  {
    assert s[j..j + 1] == sep;
    ContainsAt(s, sep, j);
  }


  /** When the separator's first character is not in `p`, the first occurrence is right behind `p`. */
  lemma {:induction false} FirstBehind(p: string, sep: string, x: string)
    requires |sep| > 0 && sep[0] !in p
    ensures Index(p + sep + x, sep) == Some(|p|)
    ensures ThroughFirst(p + sep + x, sep) == p + sep
    ensures AfterFirst(p + sep + x, sep) == x
  {
    var s := p + sep + x;
    assert s[|p|..|p| + |sep|] == sep;
    forall j: nat | j < |p| ensures !OccursAt(s, sep, j) {
      assert s[j] == p[j];
    }
    IndexIsFirst(s, sep, |p|);
    assert s[..|p| + |sep|] == p + sep;
  }

  /** A string that starts with the separator has its first occurrence at the start. */
  lemma {:induction false} FirstAtStart(sep: string, x: string)
    ensures Index(sep + x, sep) == Some(0)
    ensures ThroughFirst(sep + x, sep) == sep
    ensures Contains(sep + x, sep) && AfterFirst(sep + x, sep) == x
  {
    assert (sep + x)[..|sep|] == sep;
  }

  /** A string lacking one of the separator's characters does not contain the separator. */
  lemma {:induction false} LacksChar(s: string, sep: string, c: char)
    requires c in sep && c !in s
    ensures !Contains(s, sep)
  {
  }

  /** TrimRight with a one-character cutset strips exactly one trailing `c` from a `c`-free string plus `c`. */
  lemma {:induction false} TrimRightOne(p: string, c: char)
    requires c !in p
    ensures TrimRight(p + [c], [c]) == p
  {
    assert (p + [c])[..|p|] == p;
    if |p| > 0 {
      assert p[|p| - 1] in p;
    }
  }


  /**
   * After a `sep`-free `p` and a character `c` that `sep` lacks, the first
   * occurrence of `sep` is right behind `c`: none can start in `p` or span `c`.
   */
  lemma {:induction false} FirstBehindBarrier(p: string, c: char, sep: string, x: string)
    requires |sep| > 0 && c !in sep && !Contains(p, sep)
    ensures Index(p + [c] + sep + x, sep) == Some(|p| + 1)
    ensures ThroughFirst(p + [c] + sep + x, sep) == p + [c] + sep
    ensures AfterFirst(p + [c] + sep + x, sep) == x
  {
    var s := p + [c] + sep + x;
    assert s[|p| + 1..|p| + 1 + |sep|] == sep;
    forall j: nat | j < |p| + 1 ensures !OccursAt(s, sep, j) {
      if j + |sep| <= |p| {
        assert s[j..j + |sep|] == p[j..j + |sep|];
        assert !OccursAt(p, sep, j);
      } else {
        assert s[|p|] == c;
      }
    }
    IndexIsFirst(s, sep, |p| + 1);
    assert s[..|p| + 1 + |sep|] == p + [c] + sep;
  }

  /**
   * When the separator's first character occurs nowhere else in it, an
   * occurrence cannot straddle the end of a `sep`-free `p`, so the first
   * occurrence is right behind `p`.
   */
  lemma {:induction false} FirstBehindFresh(p: string, sep: string, x: string)
    requires |sep| > 0 && !Contains(p, sep)
    requires forall k :: 0 < k < |sep| ==> sep[k] != sep[0]
    ensures Index(p + sep + x, sep) == Some(|p|)
    ensures ThroughFirst(p + sep + x, sep) == p + sep
    ensures AfterFirst(p + sep + x, sep) == x
  {
    var s := p + sep + x;
    assert s[|p|..|p| + |sep|] == sep;
    forall j: nat | j < |p| ensures !OccursAt(s, sep, j) {
      if j + |sep| <= |p| {
        assert s[j..j + |sep|] == p[j..j + |sep|];
        assert !OccursAt(p, sep, j);
      } else {
        var m := |p| - j;
        assert s[j + m] == sep[0] != sep[m];
      }
    }
    IndexIsFirst(s, sep, |p|);
    assert s[..|p| + |sep|] == p + sep;
  }

}

/** Go's `strconv.Atoi` and `strconv.Itoa` on 64-bit `int`. */
module Strconv {
  import opened Wrappers

  const MinInt64: int := -0x8000_0000_0000_0000
  const MaxInt64: int := 0x7FFF_FFFF_FFFF_FFFF

  predicate IsDigit(c: char) {
    '0' <= c <= '9'
  }

  predicate AllDigits(s: string) {
    forall i :: 0 <= i < |s| ==> IsDigit(s[i])
  }

  /** The value of a string of decimal digits, most significant first. */
  function DigitsValue(s: string): nat
    requires AllDigits(s)
    decreases |s|
  {
    if s == [] then 0 else DigitsValue(s[..|s| - 1]) * 10 + ((s[|s| - 1] as int) - ('0' as int))
  }

  /** strconv.Atoi: an optional sign and at least one decimal digit, within the range of `int`. */
  function Atoi(s: string): (r: Option<int>)
    ensures r.Some? ==> MinInt64 <= r.value <= MaxInt64
    ensures r.Some? ==> |s| > 0 && (IsDigit(s[0]) || s[0] == '+' || s[0] == '-')
  {
    var signed := |s| > 0 && (s[0] == '+' || s[0] == '-');
    var digits := if signed then s[1..] else s;
    if digits == [] || !AllDigits(digits) then None
    else
      var n := if signed && s[0] == '-' then -(DigitsValue(digits) as int) else DigitsValue(digits);
      if MinInt64 <= n <= MaxInt64 then Some(n) else None
  }

  /** A sign as Atoi accepts it: none, plus or minus. */
  predicate IsSign(sign: string) {
    sign == "" || sign == "+" || sign == "-"
  }

  /** The value of a sign followed by a digit string. */
  function SignedValue(sign: string, ds: string): int
    requires AllDigits(ds)
  {
    if sign == "-" then -(DigitsValue(ds) as int) else DigitsValue(ds)
  }

  /** `s` is a decimal literal of `n`: an optional sign, then at least one digit. */
  ghost predicate Denotes(s: string, n: int) {
    exists sign, ds :: IsSign(sign) && |ds| > 0 && AllDigits(ds) && s == sign + ds && n == SignedValue(sign, ds)
  }

  /**
   * Atoi reads `n` from `s` exactly when `s` is a decimal literal of `n` and `n`
   * is within the range of `int`; every other string (empty, a bare sign, a
   * stray character, a value out of range) is refused.
   */
  lemma {:induction false} AtoiExactly(s: string)
    ensures forall n :: Atoi(s) == Some(n) <==> Denotes(s, n) && MinInt64 <= n <= MaxInt64
    ensures Atoi(s).Some? ==> Denotes(s, Atoi(s).value)
  {
    forall n ensures Atoi(s) == Some(n) <==> Denotes(s, n) && MinInt64 <= n <= MaxInt64 {
      AtoiReads(s, n);
    }
    if Atoi(s).Some? {
      AtoiReads(s, Atoi(s).value);
    }
  }

  lemma {:induction false} AtoiReads(s: string, n: int)
    ensures Atoi(s) == Some(n) <==> Denotes(s, n) && MinInt64 <= n <= MaxInt64
  {
    if Atoi(s) == Some(n) {
      if s[0] == '+' || s[0] == '-' {
        var sign, ds := s[..1], s[1..];
        assert s == sign + ds;
        assert IsSign(sign) && n == SignedValue(sign, ds);
      } else {
        assert s == "" + s && IsSign("");
        assert n == SignedValue("", s);
      }
    }
    if Denotes(s, n) && MinInt64 <= n <= MaxInt64 {
      var sign, ds :| IsSign(sign) && |ds| > 0 && AllDigits(ds) && s == sign + ds && n == SignedValue(sign, ds);
      if sign == "" {
        assert s == ds && IsDigit(s[0]);
      } else {
        assert s[0] == sign[0] && s[1..] == ds;
      }
    }
  }

  function DigitChar(d: nat): (c: char)
    requires d < 10
    ensures IsDigit(c) && (c as int) - ('0' as int) == d
  {
    ('0' as int + d) as char
  }

  /** "The decimal digits of `n`, without leading zeros." */
  function NatString(n: nat): (s: string)
    decreases n
  {
    if n < 10 then [DigitChar(n)] else NatString(n / 10) + [DigitChar(n % 10)]
  }

  lemma {:induction false} NatStringDigits(n: nat)
    ensures |NatString(n)| > 0 && AllDigits(NatString(n))
    ensures DigitsValue(NatString(n)) == n
    decreases n
  {
    if n >= 10 {
      NatStringDigits(n / 10);
      var s := NatString(n);
      assert s[..|s| - 1] == NatString(n / 10);
    }
  }

  /** strconv.Itoa. */
  function Itoa(n: int): string {
    if n < 0 then "-" + NatString(-n) else NatString(n)
  }

  /** An unsigned digit string in range reads as its value. */
  lemma {:induction false} AtoiDigits(s: string)
    requires |s| > 0 && AllDigits(s) && DigitsValue(s) <= MaxInt64
    ensures Atoi(s) == Some(DigitsValue(s))
  {
    assert IsDigit(s[0]);
  }

  /** A minus sign before a digit string in range reads as the negated value. */
  lemma {:induction false} AtoiMinus(s: string)
    requires |s| > 0 && AllDigits(s) && DigitsValue(s) <= -MinInt64
    ensures Atoi("-" + s) == Some(-(DigitsValue(s) as int))
  {
    var t := "-" + s;
    assert t[0] == '-' && t[1..] == s;
  }

  /** A plus sign before a digit string in range reads as its value. */
  lemma {:induction false} AtoiPlus(s: string)
    requires |s| > 0 && AllDigits(s) && DigitsValue(s) <= MaxInt64
    ensures Atoi("+" + s) == Some(DigitsValue(s))
  {
    var t := "+" + s;
    assert t[0] == '+' && t[1..] == s;
  }

  /** A digit string beyond the range of `int` is refused, with or without a sign. */
  lemma {:induction false} AtoiOutOfRange(s: string)
    requires |s| > 0 && AllDigits(s) && DigitsValue(s) > MaxInt64
    ensures Atoi(s) == None && Atoi("+" + s) == None
    ensures DigitsValue(s) > -MinInt64 ==> Atoi("-" + s) == None
  {
    assert IsDigit(s[0]);
    var p, m := "+" + s, "-" + s;
    assert p[0] == '+' && p[1..] == s;
    assert m[0] == '-' && m[1..] == s;
  }

  /** The empty string, a bare sign and a sign before a non-digit are refused. */
  lemma {:induction false} AtoiMalformed(c: char, rest: string)
    requires !IsDigit(c)
    ensures Atoi("") == None && Atoi("+") == None && Atoi("-") == None
    ensures c != '+' && c != '-' ==> Atoi([c] + rest) == None
    ensures Atoi("+" + [c] + rest) == None && Atoi("-" + [c] + rest) == None
  {
    var t, p, m := [c] + rest, "+" + [c] + rest, "-" + [c] + rest;
    assert t[0] == c;
    assert p[0] == '+' && p[1..][0] == c;
    assert m[0] == '-' && m[1..][0] == c;
  }

  /** Atoi reads back what Itoa writes, for every `int`. */
  lemma {:induction false} AtoiItoa(n: int)
    requires MinInt64 <= n <= MaxInt64
    ensures Atoi(Itoa(n)) == Some(n)
  {
    if n < 0 {
      NatStringDigits(-n);
      AtoiMinus(NatString(-n));
    } else {
      NatStringDigits(n);
      AtoiDigits(NatString(n));
    }
  }
}
