/** An optional value; `None` stands for JavaScript's `undefined`. */
module Options {
  datatype Option<+T> = None | Some(value: T)
}

/**
 * The small part of JavaScript's string and array library that the list
 * layout relies on: `String.prototype.indexOf` / `includes`,
 * `String.prototype.split` with a non-empty string separator,
 * `Array.prototype.join`, and the decimal text that a template literal
 * produces for an integer.
 */
module JsText {
  import opened Options

  /** `sub` occurs in `s` starting at index `i`. */
  ghost predicate OccursAt(s: string, sub: string, i: int) {
    0 <= i && i + |sub| <= |s| && s[i..i + |sub|] == sub
  }

  /** `sub` occurs somewhere in `s`. */
  ghost predicate Contains(s: string, sub: string) {
    exists i :: OccursAt(s, sub, i)
  }

  /** `i` is the first index at which `sub` occurs in `s`. */
  ghost predicate FirstOccurrence(s: string, sub: string, i: int) {
    OccursAt(s, sub, i) && forall j :: 0 <= j < i ==> !OccursAt(s, sub, j)
  }

  /** The first occurrence of `sub` at or after `k`; `s.indexOf(sub, k)` for `k <= |s|`. */
  function IndexOfFrom(s: string, sub: string, k: nat): (r: Option<nat>)
    ensures r.Some? ==> k <= r.value && OccursAt(s, sub, r.value)
    ensures r.Some? ==> forall j :: k <= j < r.value ==> !OccursAt(s, sub, j)
    ensures r.None? ==> forall j :: k <= j ==> !OccursAt(s, sub, j)
    decreases |s| - k
  {
    if k + |sub| > |s| then None
    else if s[k..k + |sub|] == sub then Some(k)
    else IndexOfFrom(s, sub, k + 1)
  }

  /** `s.indexOf(sub)`, with `None` standing for -1. */
  function IndexOf(s: string, sub: string): (r: Option<nat>)
    ensures r.Some? <==> Contains(s, sub)
    ensures r.Some? ==> FirstOccurrence(s, sub, r.value)
  {
    IndexOfFrom(s, sub, 0)
  }

  /** `s.includes(sub)`. */
  function Includes(s: string, sub: string): (r: bool)
    ensures r <==> Contains(s, sub)
  {
    IndexOf(s, sub).Some?
  }

  /** `s.startsWith(prefix)`. */
  function StartsWith(s: string, prefix: string): (r: bool)
    ensures r <==> OccursAt(s, prefix, 0)
  {
    |prefix| <= |s| && s[..|prefix|] == prefix
  }

  /**
   * `s.split(sep)` for a non-empty separator: the pieces between successive
   * left-to-right occurrences of `sep`, starting the search for the next
   * occurrence just after the previous one.
   */
  function Split(s: string, sep: string): (r: seq<string>)
    requires |sep| > 0
    ensures |r| >= 1
    decreases |s|
  {
    var found := IndexOf(s, sep);
    if found.None? then [s]
    else
      var i := found.value;
      [s[..i]] + Split(s[i + |sep|..], sep)
  }

  /** `parts.join(sep)`. */
  function Join(parts: seq<string>, sep: string): string
  {
    if |parts| == 0 then ""
    else if |parts| == 1 then parts[0]
    else parts[0] + sep + Join(parts[1..], sep)
  }

  lemma NothingBeforeFirst(s: string, sub: string, i: nat)
    requires |sub| > 0
    requires FirstOccurrence(s, sub, i)
    ensures !Contains(s[..i], sub)
  {
    forall j | OccursAt(s[..i], sub, j)
      ensures false
    {
      assert s[..i][j..j + |sub|] == s[j..j + |sub|];
      assert OccursAt(s, sub, j);
    }
  }

  lemma OccursInLeft(a: string, b: string, sub: string, i: int)
    requires OccursAt(a, sub, i)
    ensures OccursAt(a + b, sub, i)
  {
    assert (a + b)[i..i + |sub|] == a[i..i + |sub|];
  }

  lemma OccursInRight(a: string, b: string, sub: string, i: int)
    requires OccursAt(b, sub, i)
    ensures OccursAt(a + b, sub, i + |a|)
  {
    assert (a + b)[i + |a|..i + |a| + |sub|] == b[i..i + |sub|];
  }

  /**
   * An occurrence in `a + [c] + b` lies wholly inside `a`, wholly inside `b`,
   * or covers the `c` between them.
   */
  lemma OccursAroundChar(a: string, c: char, b: string, sub: string, i: int)
    requires OccursAt(a + [c] + b, sub, i)
    ensures OccursAt(a, sub, i) || OccursAt(b, sub, i - |a| - 1) || c in sub
  {
    var s := a + [c] + b;
    if i + |sub| <= |a| {
      assert s[i..i + |sub|] == a[i..i + |sub|];
    } else if i >= |a| + 1 {
      assert s[i..i + |sub|] == b[i - |a| - 1..i - |a| - 1 + |sub|];
    } else {
      assert sub[|a| - i] == s[|a|];
    }
  }

  /** A one-character occurrence inside `a` of `a + [c] + b` means `a` holds `c`. */
  lemma CharBeforeSeparator(a: string, c: char, b: string, j: int)
    requires j < |a|
    requires OccursAt(a + [c] + b, [c], j)
    ensures c in a
  {
    assert (a + [c] + b)[j..j + 1][0] == a[j];
  }

  /** A one-character text occurs in `s` exactly when the character does. */
  lemma ContainsChar(s: string, c: char)
    ensures Contains(s, [c]) <==> c in s
  {
    if c in s {
      var i :| 0 <= i < |s| && s[i] == c;
      assert s[i..i + 1] == [c];
      assert OccursAt(s, [c], i);
    }
    if Contains(s, [c]) {
      var i :| OccursAt(s, [c], i);
      assert s[i] == s[i..i + 1][0];
    }
  }

  lemma JoinCons(x: string, tail: seq<string>, sep: string)
    requires |tail| >= 1
    ensures Join([x] + tail, sep) == x + sep + Join(tail, sep)
  {
    assert ([x] + tail)[1..] == tail;
  }

  /** A split has more than one piece exactly when the separator occurs. */
  lemma SplitManyIffContains(s: string, sep: string)
    requires |sep| > 0
    ensures |Split(s, sep)| >= 2 <==> Contains(s, sep)
  {
    if Contains(s, sep) {
      SplitStep(s, sep, IndexOf(s, sep).value);
    }
  }

  /** One step of `Split`: the piece before the first occurrence, then the rest. */
  lemma SplitStep(s: string, sep: string, i: nat)
    requires |sep| > 0
    requires IndexOf(s, sep) == Some(i)
    ensures Split(s, sep) == [s[..i]] + Split(s[i + |sep|..], sep)
  {
  }

  /** No piece of a split holds the separator. */
  lemma {:induction false} SplitPiecesFree(s: string, sep: string)
    requires |sep| > 0
    ensures forall k :: 0 <= k < |Split(s, sep)| ==> !Contains(Split(s, sep)[k], sep)
    decreases |s|
  {
    var found := IndexOf(s, sep);
    if found.Some? {
      var i := found.value;
      SplitStep(s, sep, i);
      NothingBeforeFirst(s, sep, i);
      SplitPiecesFree(s[i + |sep|..], sep);
    }
  }

  lemma OccursShift(s: string, sub: string, start: nat, j: int)
    requires start <= |s| && start <= j
    ensures OccursAt(s, sub, j) <==> OccursAt(s[start..], sub, j - start)
  {
    if j + |sub| <= |s| {
      assert s[start..][j - start..j - start + |sub|] == s[j..j + |sub|];
    }
  }

  /** Where the piece starting at `start` ends: at the next `sep`, or at the end of `s`. */
  ghost function PieceEnd(s: string, sep: string, start: nat): nat
    requires start <= |s|
  {
    var found := IndexOf(s[start..], sep);
    if found.Some? then start + found.value else |s|
  }

  /**
   * When `sep` first occurs at `i`, the split has a second piece: the text
   * from just after that occurrence up to where the piece there ends (see
   * `PieceEndIsNextOccurrence`).
   */
  lemma SecondPieceText(s: string, sep: string, i: nat)
    requires |sep| > 0
    requires FirstOccurrence(s, sep, i)
    ensures |Split(s, sep)| >= 2
    ensures i + |sep| <= PieceEnd(s, sep, i + |sep|) <= |s|
    ensures Split(s, sep)[1] == s[i + |sep|..PieceEnd(s, sep, i + |sep|)]
  {
    assert IndexOf(s, sep) == Some(i);
    SplitStep(s, sep, i);
    FirstPieceEndsAtPieceEnd(s[i + |sep|..], sep);
    assert PieceEnd(s, sep, i + |sep|) == i + |sep| + PieceEnd(s[i + |sep|..], sep, 0);
    assert s[i + |sep|..][..PieceEnd(s[i + |sep|..], sep, 0)] == s[i + |sep|..PieceEnd(s, sep, i + |sep|)];
  }

  lemma FirstPieceEndsAtPieceEnd(s: string, sep: string)
    requires |sep| > 0
    ensures PieceEnd(s, sep, 0) <= |s|
    ensures Split(s, sep)[0] == s[..PieceEnd(s, sep, 0)]
  {
    assert s[0..] == s;
    var found := IndexOf(s, sep);
    if found.Some? {
      SplitStep(s, sep, found.value);
    }
  }

  lemma PieceEndIsNextOccurrence(s: string, sep: string, start: nat)
    requires start <= |s|
    ensures start <= PieceEnd(s, sep, start) <= |s|
    ensures PieceEnd(s, sep, start) == |s| || OccursAt(s, sep, PieceEnd(s, sep, start))
    ensures forall j :: start <= j < PieceEnd(s, sep, start) ==> !OccursAt(s, sep, j)
  {
    PieceEndOccurs(s, sep, start);
    NothingBeforePieceEnd(s, sep, start);
  }

  lemma PieceEndOccurs(s: string, sep: string, start: nat)
    requires start <= |s|
    ensures start <= PieceEnd(s, sep, start) <= |s|
    ensures PieceEnd(s, sep, start) == |s| || OccursAt(s, sep, PieceEnd(s, sep, start))
  {
    var found := IndexOf(s[start..], sep);
    if found.Some? {
      OccursShift(s, sep, start, start + found.value);
    }
  }

  lemma NothingBeforePieceEnd(s: string, sep: string, start: nat)
    requires start <= |s|
    ensures forall j :: start <= j < PieceEnd(s, sep, start) ==> !OccursAt(s, sep, j)
  {
    forall j | start <= j < PieceEnd(s, sep, start)
      ensures !OccursAt(s, sep, j)
    {
      OccursShift(s, sep, start, j);
    }
  }

  lemma AroundOccurrence(s: string, sub: string, i: int)
    requires OccursAt(s, sub, i)
    ensures s == s[..i] + sub + s[i + |sub|..]
  {
    assert s == s[..i] + s[i..i + |sub|] + s[i + |sub|..];
  }

  /** Splitting and joining again with the same separator gives back the text. */
  lemma {:induction false} SplitJoin(s: string, sep: string)
    requires |sep| > 0
    ensures Join(Split(s, sep), sep) == s
    decreases |s|
  {
    var found := IndexOf(s, sep);
    if found.Some? {
      var i := found.value;
      var rest := s[i + |sep|..];
      SplitStep(s, sep, i);
      SplitJoin(rest, sep);
      JoinCons(s[..i], Split(rest, sep), sep);
      AroundOccurrence(s, sep, i);
    } else {
      assert Split(s, sep) == [s];
    }
  }

  /**
   * Joining pieces that do not hold the one-character separator and
   * splitting again gives back the pieces.
   */
  lemma {:induction false} JoinSplit(parts: seq<string>, c: char)
    requires |parts| >= 1
    requires forall k :: 0 <= k < |parts| ==> c !in parts[k]
    ensures Split(Join(parts, [c]), [c]) == parts
    decreases |parts|
  {
    if |parts| == 1 {
      ContainsChar(parts[0], c);
    } else {
      var p0, rest := parts[0], Join(parts[1..], [c]);
      var s := Join(parts, [c]);
      assert s == p0 + [c] + rest;
      assert OccursAt(s, [c], |p0|) by {
        assert s[|p0|..|p0| + 1] == [c];
      }
      forall j | 0 <= j < |p0|
        ensures !OccursAt(s, [c], j)
      {
        if OccursAt(s, [c], j) {
          CharBeforeSeparator(p0, c, rest, j);
        }
      }
      var i := IndexOf(s, [c]).value;
      assert i == |p0|;
      assert s[..i] == p0;
      assert s[i + 1..] == rest;
      JoinSplit(parts[1..], c);
    }
  }

  /** A text that occurs in one of the pieces occurs in their join. */
  lemma {:induction false} ContainsInJoin(parts: seq<string>, sep: string, k: nat, sub: string)
    requires k < |parts|
    requires Contains(parts[k], sub)
    ensures Contains(Join(parts, sep), sub)
    decreases |parts|
  {
    var i :| OccursAt(parts[k], sub, i);
    if |parts| == 1 {
    } else if k == 0 {
      OccursInLeft(parts[0], sep + Join(parts[1..], sep), sub, i);
      assert Join(parts, sep) == parts[0] + (sep + Join(parts[1..], sep));
    } else {
      ContainsInJoin(parts[1..], sep, k - 1, sub);
      var j :| OccursAt(Join(parts[1..], sep), sub, j);
      OccursInRight(parts[0] + sep, Join(parts[1..], sep), sub, j);
    }
  }

  /**
   * A text holding no `c` that occurs in none of the pieces does not occur
   * in their join on `c`.
   */
  lemma {:induction false} NotContainsJoin(parts: seq<string>, c: char, sub: string)
    requires |parts| >= 1
    requires c !in sub
    requires forall k :: 0 <= k < |parts| ==> !Contains(parts[k], sub)
    ensures !Contains(Join(parts, [c]), sub)
    decreases |parts|
  {
    if |parts| >= 2 {
      NotContainsJoin(parts[1..], c, sub);
      var p0, rest := parts[0], Join(parts[1..], [c]);
      assert Join(parts, [c]) == p0 + [c] + rest;
      forall i | OccursAt(p0 + [c] + rest, sub, i)
        ensures false
      {
        OccursAroundChar(p0, c, rest, sub, i);
      }
    }
  }

  /** Every piece of a split is text taken from the original. */
  lemma SplitPieceInside(s: string, sep: string, k: nat, sub: string)
    requires |sep| > 0
    requires k < |Split(s, sep)|
    requires Contains(Split(s, sep)[k], sub)
    ensures Contains(s, sub)
  {
    ContainsInJoin(Split(s, sep), sep, k, sub);
    SplitJoin(s, sep);
  }

  /** A separator followed by text free of it splits into an empty piece and that text. */
  lemma SplitLeadingSeparator(sep: string, x: string)
    requires |sep| > 0
    requires !Contains(x, sep)
    ensures Split(sep + x, sep) == ["", x]
  {
    var s := sep + x;
    assert s[..|sep|] == sep;
    assert OccursAt(s, sep, 0);
    assert IndexOf(s, sep) == Some(0);
    assert s[|sep|..] == x;
  }

  /** A text occurs in `s` only if its first character does. */
  lemma FirstCharOfOccurrence(s: string, sub: string)
    requires |sub| > 0
    ensures Contains(s, sub) ==> sub[0] in s
  {
    if Contains(s, sub) {
      var i :| OccursAt(s, sub, i);
      assert s[i] == s[i..i + |sub|][0];
    }
  }

  // ---------------------------------------------------------------------
  // Decimal text of integers, as `${n}` renders an integer-valued number.

  function DigitChar(d: nat): (c: char)
    requires d < 10
    ensures '0' <= c <= '9'
  {
    ('0' as int + d) as char
  }

  /** The decimal digits of `n`, most significant first, without leading zeros. */
  function NatText(n: nat): (r: string)
    ensures |r| >= 1
    ensures forall k :: 0 <= k < |r| ==> '0' <= r[k] <= '9'
    ensures r[0] == '0' ==> n == 0 && r == "0"
    decreases n
  {
    if n < 10 then [DigitChar(n)] else NatText(n / 10) + [DigitChar(n % 10)]
  }

  /** `${n}` for an integer `n`: a minus sign before the digits when negative. */
  function IntText(n: int): (r: string)
    ensures |r| >= 1 && '/' !in r && '&' !in r
    ensures r[0] == '-' <==> n < 0
  {
    if n < 0 then "-" + NatText(-n) else NatText(n)
  }

  /** The value of a run of decimal digits. */
  function ParseNat(s: string): nat
    decreases |s|
  {
    if |s| == 0 then 0
    else
      var d := s[|s| - 1] as int - '0' as int;
      ParseNat(s[..|s| - 1]) * 10 + (if 0 <= d < 10 then d else 0)
  }

  /** The value of an optionally signed run of decimal digits. */
  function ParseInt(s: string): int
  {
    if |s| > 0 && s[0] == '-' then -(ParseNat(s[1..]) as int) else ParseNat(s)
  }

  lemma {:induction false} NatTextRoundTrip(n: nat)
    ensures ParseNat(NatText(n)) == n
    decreases n
  {
    if n >= 10 {
      NatTextRoundTrip(n / 10);
      var s := NatText(n);
      assert s[..|s| - 1] == NatText(n / 10);
    }
  }

  /** Reading back the decimal text of an integer gives the integer. */
  lemma IntTextRoundTrip(n: int)
    ensures ParseInt(IntText(n)) == n
  {
    if n < 0 {
      NatTextRoundTrip(-n);
      assert ("-" + NatText(-n))[1..] == NatText(-n);
    } else {
      NatTextRoundTrip(n);
    }
  }
}
