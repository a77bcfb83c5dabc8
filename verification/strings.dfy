/** The string operations the colour pass relies on: `str.startswith`, the
    `in` operator on strings, `int(...)` on digit strings, the `d` and `02x`
    format specifiers, and `str.replace`. */
module Strings {
  import opened CharClass
  import opened Options

  predicate StartsWith(s: string, p: string) {
    |p| <= |s| && s[..|p|] == p
  }

  /** `s[a..c]` is `s[a..b]`, the element at `b`, and `s[b + 1..c]`. */
  lemma SliceAround<T>(s: seq<T>, a: nat, b: nat, c: nat)
    requires a <= b < c <= |s|
    ensures s[a..c] == s[a..b] + [s[b]] + s[b + 1..c]
  {
  }

  /** `s[a..c]` is `s[a..b]` followed by `s[b..c]`. */
  lemma SliceJoin<T>(s: seq<T>, a: nat, b: nat, c: nat)
    requires a <= b <= c <= |s|
    ensures s[a..c] == s[a..b] + s[b..c]
  {
  }

  /** A non-empty sequence is its head followed by its tail. */
  lemma HeadTail<T>(s: seq<T>)
    requires |s| > 0
    ensures [s[0]] + s[1..] == s
  {
  }

  /** `p` occurs in `s` starting at index `i`. */
  predicate OccursAt(s: string, p: string, i: int) {
    0 <= i && i + |p| <= |s| && s[i..i + |p|] == p
  }

  /** Python's `p in s`. */
  predicate Contains(s: string, p: string) {
    exists i | 0 <= i <= |s| - |p| :: OccursAt(s, p, i)
  }

  /** Dropping the first character shifts every occurrence one place left. */
  lemma OccursShift(s: string, p: string, i: int)
    requires |s| > 0 && i >= 0
    ensures OccursAt(s[1..], p, i) <==> OccursAt(s, p, i + 1)
  {
    if 0 <= i && i + |p| <= |s| - 1 {
      assert s[1..][i..i + |p|] == s[i + 1..i + 1 + |p|];
    }
  }

  /** When `p` does not occur at the front, it occurs in `s` exactly when it
      occurs in `s[1..]`. */
  lemma ContainsShift(s: string, p: string)
    requires |s| > 0 && !OccursAt(s, p, 0)
    ensures Contains(s, p) <==> Contains(s[1..], p)
  {
    forall i | 0 <= i
      ensures OccursAt(s[1..], p, i) <==> OccursAt(s, p, i + 1)
    {
      OccursShift(s, p, i);
    }
    if Contains(s, p) {
      var i :| 0 <= i <= |s| - |p| && OccursAt(s, p, i);
      assert OccursAt(s[1..], p, i - 1);
    }
  }

  /** When the first character of `p` appears nowhere in `s` but at the
      front, `p` is in `s` only if `s` starts with it. */
  lemma OnlyAtFront(s: string, p: string)
    requires |p| > 0
    requires forall k :: 1 <= k < |s| ==> s[k] != p[0]
    ensures Contains(s, p) <==> StartsWith(s, p)
  {
    if Contains(s, p) {
      var i :| 0 <= i <= |s| - |p| && OccursAt(s, p, i);
      assert s[i] == s[i..i + |p|][0] == p[0];
      assert i == 0;
    }
    if StartsWith(s, p) {
      assert OccursAt(s, p, 0);
    }
  }

  predicate AllDigits(s: string) {
    forall i :: 0 <= i < |s| ==> IsDigit(s[i])
  }

  predicate AllSpaces(s: string) {
    forall i :: 0 <= i < |s| ==> IsSpace(s[i])
  }

  predicate AllLowerHex(s: string) {
    forall i :: 0 <= i < |s| ==> IsLowerHex(s[i])
  }

  predicate AllUpperHex(s: string) {
    forall i :: 0 <= i < |s| ==> IsUpperHex(s[i])
  }

  predicate AllHexDigits(s: string) {
    forall i :: 0 <= i < |s| ==> IsHexDigit(s[i])
  }

  /** `int(d)` for a string of decimal digits; leading zeros are allowed. */
  function DecimalValue(d: string): nat
    requires AllDigits(d)
  {
    if |d| == 0 then 0 else DecimalValue(d[..|d| - 1]) * 10 + DigitValue(d[|d| - 1])
  }

  /** `int(d, 16)` for a string of hex digits of either case. */
  function HexNumber(d: string): nat
    requires AllHexDigits(d)
  {
    if |d| == 0 then 0 else HexNumber(d[..|d| - 1]) * 16 + HexValue(d[|d| - 1])
  }

  /** The value of two hex digits. */
  lemma HexPair(p: string)
    requires |p| == 2 && AllHexDigits(p)
    ensures HexNumber(p) == HexValue(p[0]) * 16 + HexValue(p[1])
  {
    var q := p[..1];
    assert p[..|p| - 1] == q && q[..|q| - 1] == [] && q[|q| - 1] == p[0];
    assert HexNumber(q) == HexValue(p[0]);
  }

  /** `f"{n}"`: the decimal numeral of `n`, without leading zeros. */
  function Decimal(n: nat): (d: string)
    ensures |d| > 0 && AllDigits(d)
    ensures DecimalValue(d) == n
    ensures d[0] == '0' ==> d == "0"
  {
    if n < 10 then [DigitChar(n)]
    else
      var prefix := Decimal(n / 10);
      var d := prefix + [DigitChar(n % 10)];
      assert d[..|d| - 1] == prefix;
      d
  }

  /** The lower-case hex numeral of `n`, without leading zeros. */
  function HexDigits(n: nat): (h: string)
    ensures |h| > 0 && AllLowerHex(h)
    ensures HexNumber(h) == n
    ensures n < 16 <==> |h| == 1
    ensures n < 256 <==> |h| <= 2
  {
    if n < 16 then [HexChar(n)]
    else
      var prefix := HexDigits(n / 16);
      var h := prefix + [HexChar(n % 16)];
      assert h[..|h| - 1] == prefix;
      h
  }

  /** `f"{n:02x}"`: lower-case hex, zero-padded to at least two digits. */
  function Hex02(n: nat): (h: string)
    ensures |h| >= 2 && AllLowerHex(h)
    ensures HexNumber(h) == n
    ensures n < 256 <==> |h| == 2
  {
    if n < 16 then
      var h := ['0'] + HexDigits(n);
      assert h[..1] == ['0'] && h[..1][..0] == [];
      h
    else HexDigits(n)
  }

  /** `s.split(sep)`: the pieces between the leftmost non-overlapping
      occurrences of `sep`, read from the left. */
  function Split(s: string, sep: string): (parts: seq<string>)
    requires |sep| > 0
    ensures |parts| > 0
    decreases |s|
  {
    if |s| < |sep| then [s]
    else if s[..|sep|] == sep then [""] + Split(s[|sep|..], sep)
    else
      var tail := Split(s[1..], sep);
      [[s[0]] + tail[0]] + tail[1..]
  }

  /** `sep.join(parts)`. */
  function Join(parts: seq<string>, sep: string): string {
    if |parts| == 0 then ""
    else if |parts| == 1 then parts[0]
    else parts[0] + sep + Join(parts[1..], sep)
  }

  /** `s.replace(target, replacement)`: one left-to-right pass that replaces
      every non-overlapping occurrence and never re-reads replaced text. */
  function ReplaceAll(s: string, target: string, replacement: string): (r: string)
    requires |target| > 0
    ensures |replacement| == |target| ==> |r| == |s|
    decreases |s|
  {
    if |s| < |target| then s
    else if s[..|target|] == target then replacement + ReplaceAll(s[|target|..], target, replacement)
    else [s[0]] + ReplaceAll(s[1..], target, replacement)
  }

  /** The first piece of a split is where the string starts. */
  lemma {:induction false} SplitHead(s: string, sep: string)
    requires |sep| > 0
    ensures StartsWith(s, Split(s, sep)[0])
    decreases |s|
  {
    if |s| >= |sep| && s[..|sep|] != sep {
      SplitHead(s[1..], sep);
      var h := Split(s[1..], sep)[0];
      assert ([s[0]] + h) == s[..|h| + 1];
    }
  }

  /** No piece of a split contains the separator: every occurrence was cut. */
  lemma {:induction false} SplitPiecesFree(s: string, sep: string)
    requires |sep| > 0
    ensures forall k :: 0 <= k < |Split(s, sep)| ==> !Contains(Split(s, sep)[k], sep)
    decreases |s|
  {
    var parts := Split(s, sep);
    if |s| < |sep| {
      assert parts == [s];
    } else if s[..|sep|] == sep {
      var tail := Split(s[|sep|..], sep);
      SplitPiecesFree(s[|sep|..], sep);
      assert parts == [""] + tail;
      forall k | 0 <= k < |parts| ensures !Contains(parts[k], sep) {
        if k > 0 {
          assert parts[k] == tail[k - 1];
        }
      }
    } else {
      var tail := Split(s[1..], sep);
      SplitPiecesFree(s[1..], sep);
      SplitHead(s, sep);
      var x := [s[0]] + tail[0];
      assert parts == [x] + tail[1..];
      assert x[1..] == tail[0];
      assert x == s[..|x|];
      assert !OccursAt(x, sep, 0);
      ContainsShift(x, sep);
      forall k | 0 <= k < |parts| ensures !Contains(parts[k], sep) {
        if k > 0 {
          assert parts[k] == tail[k];
        }
      }
    }
  }

  /** Splitting and joining with the same separator gives back the string. */
  lemma {:induction false} JoinSplit(s: string, sep: string)
    requires |sep| > 0
    ensures Join(Split(s, sep), sep) == s
    decreases |s|
  {
    if |s| < |sep| {
    } else if s[..|sep|] == sep {
      var rest := s[|sep|..];
      var tail := Split(rest, sep);
      JoinSplit(rest, sep);
      JoinCons("", tail, sep);
      assert Split(s, sep) == [""] + tail;
      assert Join(Split(s, sep), sep) == "" + sep + rest;
      assert s == s[..|sep|] + rest;
    } else {
      var tail := Split(s[1..], sep);
      JoinSplit(s[1..], sep);
      JoinPrefix([s[0]], tail, sep);
      assert Split(s, sep) == [[s[0]] + tail[0]] + tail[1..];
      assert Join(Split(s, sep), sep) == [s[0]] + s[1..];
      assert s == [s[0]] + s[1..];
    }
  }

  lemma JoinCons(x: string, parts: seq<string>, sep: string)
    requires |parts| > 0
    ensures Join([x] + parts, sep) == x + sep + Join(parts, sep)
  {
    assert ([x] + parts)[1..] == parts;
  }

  /** Prefixing the first piece prefixes the joined string. */
  lemma JoinPrefix(x: string, parts: seq<string>, sep: string)
    requires |parts| > 0
    ensures Join([x + parts[0]] + parts[1..], sep) == x + Join(parts, sep)
  {
  }

  /** `str.replace` is `replacement.join(s.split(target))`: the string is cut
      at every leftmost non-overlapping occurrence of `target`, none of the
      pieces contains `target`, and each cut is filled with `replacement`. */
  lemma {:induction false} ReplaceAllIsSplitJoin(s: string, target: string, replacement: string)
    requires |target| > 0
    ensures ReplaceAll(s, target, replacement) == Join(Split(s, target), replacement)
    decreases |s|
  {
    if |s| < |target| {
    } else if s[..|target|] == target {
      var rest := s[|target|..];
      ReplaceAllIsSplitJoin(rest, target, replacement);
      JoinCons("", Split(rest, target), replacement);
    } else {
      ReplaceAllIsSplitJoin(s[1..], target, replacement);
      JoinPrefix([s[0]], Split(s[1..], target), replacement);
    }
  }

  /** A line without the token is left as it is. */
  lemma {:induction false} ReplaceAllAbsent(s: string, target: string, replacement: string)
    requires |target| > 0 && !Contains(s, target)
    ensures ReplaceAll(s, target, replacement) == s
    decreases |s|
  {
    if |s| >= |target| {
      assert !OccursAt(s, target, 0);
      ContainsShift(s, target);
      ReplaceAllAbsent(s[1..], target, replacement);
      assert s == [s[0]] + s[1..];
    }
  }

  /** Replacing a token by itself changes nothing. */
  lemma ReplaceAllSelf(s: string, target: string)
    requires |target| > 0
    ensures ReplaceAll(s, target, target) == s
  {
    ReplaceAllIsSplitJoin(s, target, target);
    JoinSplit(s, target);
  }
}
