/** The colour tokens the line scanner looks for, and the matchers standing
    in for the regular expressions of `fixcolor.py`.

    The scanner's pattern is an alternation of four branches:
      `#[0-9a-f]{6}`, `#[0-9A-F]{6}`, `rgb?\(\d+,\s*\d+,\s*\d+\)` and
      `rgba?\(\d+,\s*\d+,\s*\d+,\s*\d+\)`.
    None of them needs backtracking to decide a match: `\d+` is always
    followed by `,` or `)`, `\s*` by a digit, and `b?` / `a?` by `(`. So each
    branch is a deterministic parser, and the alternation takes the first
    branch that matches, as Python's `re` does. */
module Tokens {
  import opened CharClass
  import opened Options
  import opened Strings

  /** One decimal group of a functional colour: the whitespace `\s*` that may
      follow the preceding comma, and the digits `\d+`. */
  datatype Arg = Arg(lead: string, digits: string)

  /** A token as the scanner finds it. `name` is the text before `(`. */
  datatype Token =
    | HexCode(digits: string)
    | Call(name: string, args: seq<Arg>)

  function ArgText(a: Arg): string {
    a.lead + a.digits
  }

  function RenderArgs(args: seq<Arg>): string {
    if |args| == 0 then ""
    else if |args| == 1 then ArgText(args[0])
    else ArgText(args[0]) + "," + RenderArgs(args[1..])
  }

  /** The text of a token, as it stands in the line. */
  function Render(t: Token): string {
    match t
    case HexCode(d) => "#" + d
    case Call(name, args) => name + "(" + RenderArgs(args) + ")"
  }

  /** A group the pattern `\s*\d+` matches in full. Stated through the run
      lengths so that it does not unfold into quantifiers; `GroupOkMeans`
      gives the character-wise reading. */
  predicate GroupOk(a: Arg) {
    |a.digits| > 0 && DigitRun(a.digits, 0) == |a.digits| && SpaceRun(a.lead, 0) == |a.lead|
  }

  /** Every group is well formed. */
  predicate ArgsOk(args: seq<Arg>) {
    |args| == 0 || (GroupOk(args[0]) && ArgsOk(args[1..]))
  }

  lemma {:induction false} ArgsOkAt(args: seq<Arg>, k: nat)
    requires ArgsOk(args) && k < |args|
    ensures GroupOk(args[k])
    decreases k
  {
    if k > 0 {
      ArgsOkAt(args[1..], k - 1);
    }
  }

  /** The tokens the scanner's pattern can produce: six hex digits all of one
      case, or a call with three groups named `rg`/`rgb` or four groups named
      `rgb`/`rgba`; no whitespace before the first group. */
  predicate WellFormed(t: Token) {
    match t
    case HexCode(d) => |d| == 6 && (AllLowerHex(d) || AllUpperHex(d))
    case Call(name, args) =>
      && |args| > 0 && args[0].lead == [] && ArgsOk(args)
      && ((|args| == 3 && name in {"rg", "rgb"}) || (|args| == 4 && name in {"rgb", "rgba"}))
  }

  // ---------------------------------------------------------------------
  // Runs of digits and of whitespace
  // ---------------------------------------------------------------------

  /** The length of the run of digits starting at `j`. */
  function DigitRun(s: string, j: nat): (n: nat)
    requires j <= |s|
    ensures j + n <= |s|
    decreases |s| - j
  {
    if j < |s| && IsDigit(s[j]) then 1 + DigitRun(s, j + 1) else 0
  }

  /** The length of the run of whitespace starting at `j`. */
  function SpaceRun(s: string, j: nat): (n: nat)
    requires j <= |s|
    ensures j + n <= |s|
    decreases |s| - j
  {
    if j < |s| && IsSpace(s[j]) then 1 + SpaceRun(s, j + 1) else 0
  }

  /** The whitespace allowed before a group: none before the first one. */
  function LeadRun(s: string, j: nat, first: bool): (n: nat)
    requires j <= |s|
    ensures j + n <= |s|
    ensures first ==> n == 0
  {
    if first then 0 else SpaceRun(s, j)
  }

  /** `DigitRun` is a run of digits that cannot be extended. */
  lemma {:induction false} DigitRunMaximal(s: string, j: nat)
    requires j <= |s|
    ensures forall i :: j <= i < j + DigitRun(s, j) ==> IsDigit(s[i])
    ensures j + DigitRun(s, j) == |s| || !IsDigit(s[j + DigitRun(s, j)])
    decreases |s| - j
  {
    if j < |s| && IsDigit(s[j]) {
      DigitRunMaximal(s, j + 1);
    }
  }

  /** Any run of digits that cannot be extended is the one `DigitRun` finds. */
  lemma {:induction false} DigitRunUnique(s: string, j: nat, m: nat)
    requires j + m <= |s|
    requires forall i :: j <= i < j + m ==> IsDigit(s[i])
    requires j + m == |s| || !IsDigit(s[j + m])
    ensures DigitRun(s, j) == m
    decreases m
  {
    if m > 0 {
      DigitRunUnique(s, j + 1, m - 1);
    }
  }

  /** `SpaceRun` is a run of whitespace that cannot be extended. */
  lemma {:induction false} SpaceRunMaximal(s: string, j: nat)
    requires j <= |s|
    ensures forall i :: j <= i < j + SpaceRun(s, j) ==> IsSpace(s[i])
    ensures j + SpaceRun(s, j) == |s| || !IsSpace(s[j + SpaceRun(s, j)])
    decreases |s| - j
  {
    if j < |s| && IsSpace(s[j]) {
      SpaceRunMaximal(s, j + 1);
    }
  }

  /** Any run of whitespace that cannot be extended is the one `SpaceRun`
      finds. */
  lemma {:induction false} SpaceRunUnique(s: string, j: nat, m: nat)
    requires j + m <= |s|
    requires forall i :: j <= i < j + m ==> IsSpace(s[i])
    requires j + m == |s| || !IsSpace(s[j + m])
    ensures SpaceRun(s, j) == m
    decreases m
  {
    if m > 0 {
      SpaceRunUnique(s, j + 1, m - 1);
    }
  }

  /** Inside the slice `s[k..k + d]` the run of digits is the run in `s`,
      cut off at the end of the slice. */
  lemma {:induction false} DigitRunSlice(s: string, k: nat, d: nat, m: nat)
    requires k + d <= |s| && m <= d
    ensures DigitRun(s[k..k + d], m) == Min(DigitRun(s, k + m), d - m)
    decreases d - m
  {
    if m < d && IsDigit(s[k + m]) {
      DigitRunSlice(s, k, d, m + 1);
    }
  }

  /** The whitespace counterpart of `DigitRunSlice`. */
  lemma {:induction false} SpaceRunSlice(s: string, k: nat, d: nat, m: nat)
    requires k + d <= |s| && m <= d
    ensures SpaceRun(s[k..k + d], m) == Min(SpaceRun(s, k + m), d - m)
    decreases d - m
  {
    if m < d && IsSpace(s[k + m]) {
      SpaceRunSlice(s, k, d, m + 1);
    }
  }

  /** A run of at least `d` digits followed by a non-digit is exactly `d`
      long. */
  lemma {:induction false} DigitRunStops(s: string, k: nat, d: nat)
    requires k + d < |s| && DigitRun(s, k) >= d && !IsDigit(s[k + d])
    ensures DigitRun(s, k) == d
    decreases d
  {
    if d > 0 {
      DigitRunStops(s, k + 1, d - 1);
    }
  }

  /** The whitespace counterpart of `DigitRunStops`. */
  lemma {:induction false} SpaceRunStops(s: string, k: nat, d: nat)
    requires k + d < |s| && SpaceRun(s, k) >= d && !IsSpace(s[k + d])
    ensures SpaceRun(s, k) == d
    decreases d
  {
    if d > 0 {
      SpaceRunStops(s, k + 1, d - 1);
    }
  }

  function Min(a: nat, b: nat): nat {
    if a <= b then a else b
  }

  // ---------------------------------------------------------------------
  // Groups
  // ---------------------------------------------------------------------

  /** A group is well formed exactly when it is non-empty digits after
      whitespace. */
  lemma GroupOkMeans(a: Arg)
    ensures GroupOk(a) <==> |a.digits| > 0 && AllDigits(a.digits) && AllSpaces(a.lead)
  {
    DigitRunMaximal(a.digits, 0);
    SpaceRunMaximal(a.lead, 0);
    if AllDigits(a.digits) {
      DigitRunUnique(a.digits, 0, |a.digits|);
    }
    if AllSpaces(a.lead) {
      SpaceRunUnique(a.lead, 0, |a.lead|);
    }
  }

  /** One group at `j`: the whitespace allowed there, then `\d+`; returns
      the group and the index just past its last digit. */
  function ParseGroup(s: string, j: nat, first: bool): (r: Option<(Arg, nat)>)
    requires j <= |s|
    ensures r.Some? ==> j < r.value.1 == j + |ArgText(r.value.0)| <= |s|
  {
    var lead := LeadRun(s, j, first);
    var d := DigitRun(s, j + lead);
    if d == 0 then None else Some((GroupAt(s, j, lead, d), j + lead + d))
  }

  /** The group whose whitespace starts at `j` and whose digits start at
      `j + lead`. */
  function GroupAt(s: string, j: nat, lead: nat, d: nat): (a: Arg)
    requires j + lead + d <= |s|
    ensures |a.lead| == lead && |a.digits| == d
  {
    Arg(s[j..j + lead], s[j + lead..j + lead + d])
  }

  /** The group `ParseGroup` returns is well formed and is the text it
      consumed. */
  lemma ParseGroupSound(s: string, j: nat, first: bool, a: Arg, e: nat)
    requires j <= |s| && ParseGroup(s, j, first) == Some((a, e))
    ensures GroupOk(a) && (first ==> a.lead == [])
    ensures e <= |s| && s[j..e] == ArgText(a)
  {
    var lead := LeadRun(s, j, first);
    GroupAtOk(s, j, first, lead, DigitRun(s, j + lead));
  }

  /** The group read off the runs at `j` is well formed and is the text it
      spans. */
  lemma GroupAtOk(s: string, j: nat, first: bool, lead: nat, d: nat)
    requires j <= |s| && lead == LeadRun(s, j, first) && d == DigitRun(s, j + lead) && d > 0
    ensures var a := GroupAt(s, j, lead, d);
      GroupOk(a) && (first ==> a.lead == []) && s[j..j + lead + d] == ArgText(a)
  {
    var a := GroupAt(s, j, lead, d);
    assert a.digits == s[j + lead..j + lead + d];
    assert a.lead == s[j..j + lead];
    DigitRunSlice(s, j + lead, d, 0);
    assert DigitRun(a.digits, 0) == d;
    SpaceRunSlice(s, j, lead, 0);
    assert SpaceRun(a.lead, 0) == lead;
    assert ArgText(a) == s[j..j + lead] + s[j + lead..j + lead + d];
    SliceJoin(s, j, j + lead, j + lead + d);
  }

  /** The text of a well-formed group, followed by a character that cannot
      extend it, parses back to that group. */
  lemma GroupParsed(s: string, j: nat, a: Arg, first: bool)
    requires GroupOk(a) && (first ==> a.lead == [])
    requires j + |ArgText(a)| < |s| && s[j..j + |ArgText(a)|] == ArgText(a)
    requires !IsDigit(s[j + |ArgText(a)|])
    ensures ParseGroup(s, j, first) == Some((a, j + |ArgText(a)|))
  {
    GroupRuns(s, j, a, first);
  }

  /** The runs at the start of a well-formed group's text, followed by a
      non-digit, are its whitespace and its digits. */
  lemma GroupRuns(s: string, j: nat, a: Arg, first: bool)
    requires GroupOk(a) && (first ==> a.lead == [])
    requires j + |ArgText(a)| < |s| && s[j..j + |ArgText(a)|] == ArgText(a)
    requires !IsDigit(s[j + |ArgText(a)|])
    ensures LeadRun(s, j, first) == |a.lead|
    ensures DigitRun(s, j + |a.lead|) == |a.digits|
    ensures GroupAt(s, j, |a.lead|, |a.digits|) == a
  {
    var lead, d := |a.lead|, |a.digits|;
    GroupSlices(s, j, a);
    if !first {
      SpaceRunOf(s, j, a.lead);
    }
    DigitRunOf(s, j + lead, a.digits);
  }

  /** Where a group's text stands at `j`, its whitespace and its digits
      stand in their places. */
  lemma GroupSlices(s: string, j: nat, a: Arg)
    requires |a.digits| > 0
    requires j + |ArgText(a)| <= |s| && s[j..j + |ArgText(a)|] == ArgText(a)
    ensures var lead, d := |a.lead|, |a.digits|;
      s[j..j + lead] == a.lead && s[j + lead..j + lead + d] == a.digits && s[j + lead] == a.digits[0]
  {
    var lead, d := |a.lead|, |a.digits|;
    var text := s[j..j + lead + d];
    assert s[j..j + lead] == text[..lead];
    assert s[j + lead..j + lead + d] == text[lead..];
  }

  /** A stretch that is all whitespace, followed by a digit, is the run of
      whitespace there. */
  lemma SpaceRunOf(s: string, k: nat, w: string)
    requires k + |w| < |s| && s[k..k + |w|] == w && SpaceRun(w, 0) == |w|
    requires IsDigit(s[k + |w|])
    ensures SpaceRun(s, k) == |w|
  {
    SpaceRunSlice(s, k, |w|, 0);
    assert Min(SpaceRun(s, k), |w|) == |w|;
    SpaceRunStops(s, k, |w|);
  }

  /** A stretch that is all digits, followed by a non-digit, is the run of
      digits there. */
  lemma DigitRunOf(s: string, k: nat, w: string)
    requires k + |w| < |s| && s[k..k + |w|] == w && DigitRun(w, 0) == |w|
    requires !IsDigit(s[k + |w|])
    ensures DigitRun(s, k) == |w|
  {
    DigitRunSlice(s, k, |w|, 0);
    assert Min(DigitRun(s, k), |w|) == |w|;
    DigitRunStops(s, k, |w|);
  }

  // ---------------------------------------------------------------------
  // Lists of groups
  // ---------------------------------------------------------------------

  /** Parses `n` comma-separated groups `\d+(,\s*\d+)*` starting at `j`, the
      first without leading whitespace when `first` holds; returns the groups
      and the index just past the last digit. */
  function ParseArgs(s: string, j: nat, n: nat, first: bool): (r: Option<(seq<Arg>, nat)>)
    requires j <= |s| && n >= 1
    ensures r.Some? ==> j < r.value.1 <= |s|
    decreases n
  {
    var g := ParseGroup(s, j, first);
    if g.None? then None
    else if n == 1 then Some(([g.value.0], g.value.1))
    else if g.value.1 < |s| && s[g.value.1] == ',' then
      var m := ParseArgs(s, g.value.1 + 1, n - 1, false);
      if m.None? then None else Some(([g.value.0] + m.value.0, m.value.1))
    else None
  }

  /** A successful parse of one group is that group. */
  lemma ParseArgsSingle(s: string, j: nat, first: bool, args: seq<Arg>, e: nat)
    requires j <= |s| && ParseArgs(s, j, 1, first) == Some((args, e))
    ensures ParseGroup(s, j, first) == Some((args[0], e)) && args == [args[0]]
  {
  }

  /** A successful parse of several groups is a group ending at the
      returned index, a comma, and a successful parse of the others. */
  lemma ParseArgsSplit(s: string, j: nat, n: nat, first: bool, args: seq<Arg>, e': nat) returns (e: nat)
    requires j <= |s| && n > 1 && ParseArgs(s, j, n, first) == Some((args, e'))
    ensures |args| > 0 && ParseGroup(s, j, first) == Some((args[0], e))
    ensures e < |s| && s[e] == ','
    ensures ParseArgs(s, e + 1, n - 1, false) == Some((args[1..], e'))
  {
    e := ParseGroup(s, j, first).value.1;
  }

  /** `ParseArgs` returns `n` groups, the first without leading whitespace
      when `first` holds. */
  lemma {:induction false} ParseArgsCount(s: string, j: nat, n: nat, first: bool, args: seq<Arg>, e': nat)
    requires j <= |s| && n >= 1 && ParseArgs(s, j, n, first) == Some((args, e'))
    ensures |args| == n && (first ==> args[0].lead == [])
    decreases n
  {
    if n == 1 {
      ParseArgsSingle(s, j, first, args, e');
      ParseGroupSound(s, j, first, args[0], e');
    } else {
      var e := ParseArgsSplit(s, j, n, first, args, e');
      ParseGroupSound(s, j, first, args[0], e);
      ParseArgsCount(s, e + 1, n - 1, false, args[1..], e');
    }
  }

  /** Every group `ParseArgs` returns is well formed. */
  lemma {:induction false} ParseArgsOk(s: string, j: nat, n: nat, first: bool, args: seq<Arg>, e': nat)
    requires j <= |s| && n >= 1 && ParseArgs(s, j, n, first) == Some((args, e'))
    ensures ArgsOk(args)
    decreases n
  {
    if n == 1 {
      ParseArgsSingle(s, j, first, args, e');
      ParseGroupSound(s, j, first, args[0], e');
    } else {
      var e := ParseArgsSplit(s, j, n, first, args, e');
      ParseGroupSound(s, j, first, args[0], e);
      ParseArgsOk(s, e + 1, n - 1, false, args[1..], e');
    }
  }

  /** The groups `ParseArgs` returns render as exactly the stretch of `s`
      it consumed. */
  lemma {:induction false} ParseArgsText(s: string, j: nat, n: nat, first: bool, args: seq<Arg>, e': nat)
    requires j <= |s| && n >= 1 && ParseArgs(s, j, n, first) == Some((args, e'))
    ensures j <= e' <= |s| && s[j..e'] == RenderArgs(args)
    decreases n
  {
    if n == 1 {
      ParseArgsSingle(s, j, first, args, e');
      ParseGroupSound(s, j, first, args[0], e');
    } else {
      var e := ParseArgsSplit(s, j, n, first, args, e');
      ParseGroupSound(s, j, first, args[0], e);
      ParseArgsText(s, e + 1, n - 1, false, args[1..], e');
      TextCons(s, j, e, e', args);
    }
  }

  /** A group, a comma and the text of the groups after it make up the
      text of all of them. */
  lemma TextCons(s: string, j: nat, e: nat, e': nat, args: seq<Arg>)
    requires |args| > 1 && j <= e < e' <= |s| && s[e] == ','
    requires s[j..e] == ArgText(args[0]) && s[e + 1..e'] == RenderArgs(args[1..])
    ensures s[j..e'] == RenderArgs(args)
  {
    SliceAround(s, j, e, e');
  }

  /** The text of several groups, standing in `s`, is the first group, a
      comma, and the text of the others. */
  lemma RenderedHead(s: string, j: nat, args: seq<Arg>)
    requires |args| > 1
    requires j + |RenderArgs(args)| <= |s|
    requires s[j..j + |RenderArgs(args)|] == RenderArgs(args)
    ensures var e := j + |ArgText(args[0])|;
      && e + 1 + |RenderArgs(args[1..])| == j + |RenderArgs(args)|
      && s[j..e] == ArgText(args[0]) && s[e] == ','
      && s[e + 1..j + |RenderArgs(args)|] == RenderArgs(args[1..])
  {
    var a, tail := args[0], args[1..];
    var r := RenderArgs(args);
    var e := j + |ArgText(a)|;
    var w := s[j..j + |r|];
    assert w == ArgText(a) + "," + RenderArgs(tail);
    assert s[j..e] == w[..|ArgText(a)|];
    assert s[e] == w[|ArgText(a)|];
    assert s[e + 1..j + |r|] == w[|ArgText(a)| + 1..];
  }

  /** One step of `ParseArgs`: a group, a comma, and the remaining groups. */
  lemma ParseArgsStep(s: string, j: nat, first: bool, args: seq<Arg>, e: nat, e': nat)
    requires j <= |s| && |args| > 1
    requires ParseGroup(s, j, first) == Some((args[0], e))
    requires e < |s| && s[e] == ','
    requires ParseArgs(s, e + 1, |args[1..]|, false) == Some((args[1..], e'))
    ensures ParseArgs(s, j, |args|, first) == Some((args, e'))
  {
    ParseArgsCons(s, j, |args|, first, args[0], e, args[1..], e');
    HeadTail(args);
  }

  lemma ParseArgsCons(s: string, j: nat, n: nat, first: bool, a: Arg, e: nat, tail: seq<Arg>, e': nat)
    requires j <= |s| && n > 1
    requires ParseGroup(s, j, first) == Some((a, e))
    requires e < |s| && s[e] == ','
    requires ParseArgs(s, e + 1, n - 1, false) == Some((tail, e'))
    ensures ParseArgs(s, j, n, first) == Some(([a] + tail, e'))
  {
  }

  /** `ParseArgs` for a single group is `ParseGroup`. */
  lemma ParseArgsOne(s: string, j: nat, first: bool, args: seq<Arg>, e: nat)
    requires j <= |s| && |args| == 1
    requires ParseGroup(s, j, first) == Some((args[0], e))
    ensures ParseArgs(s, j, 1, first) == Some((args, e))
  {
    assert [args[0]] == args;
  }

  /** The text of `args` stands in `s` from `j` to `e`, read one group at
      a time. */
  predicate ArgsAt(s: string, j: nat, args: seq<Arg>, e: nat)
    decreases |args|
  {
    && |args| > 0
    && var e1 := j + |ArgText(args[0])|;
    && e1 <= |s| && s[j..e1] == ArgText(args[0])
    && if |args| == 1 then e == e1
       else e1 < |s| && s[e1] == ',' && ArgsAt(s, e1 + 1, args[1..], e)
  }

  /** Where the text of `args` stands in `s`, it stands there group by
      group. */
  lemma {:induction false} ArgsAtOfText(s: string, j: nat, args: seq<Arg>)
    requires |args| >= 1 && j + |RenderArgs(args)| <= |s|
    requires s[j..j + |RenderArgs(args)|] == RenderArgs(args)
    ensures ArgsAt(s, j, args, j + |RenderArgs(args)|)
    decreases |args|
  {
    if |args| > 1 {
      RenderedHead(s, j, args);
      ArgsAtOfText(s, j + |ArgText(args[0])| + 1, args[1..]);
    }
  }

  /** Well-formed groups standing in `s` group by group, followed by a
      character that cannot extend the last one, parse back to exactly those
      groups. */
  lemma {:induction false} ParseRendered(s: string, j: nat, args: seq<Arg>, first: bool, e: nat)
    requires ArgsOk(args) && (first ==> |args| > 0 && args[0].lead == [])
    requires ArgsAt(s, j, args, e) && e < |s| && !IsDigit(s[e])
    ensures ParseArgs(s, j, |args|, first) == Some((args, e))
    decreases |args|
  {
    var e1 := j + |ArgText(args[0])|;
    if |args| == 1 {
      GroupParsed(s, j, args[0], first);
      ParseArgsOne(s, j, first, args, e1);
    } else {
      GroupParsed(s, j, args[0], first);
      ParseRendered(s, e1 + 1, args[1..], false, e);
      ParseArgsStep(s, j, first, args, e1, e);
    }
  }

  // ---------------------------------------------------------------------
  // The pattern branches
  // ---------------------------------------------------------------------

  /** The first two branches: `#` and six digits of one case. */
  function MatchHex(s: string): (r: Option<Token>)
    ensures r.Some? ==> r.value.HexCode? && WellFormed(r.value) && StartsWith(s, Render(r.value))
    ensures r.None? <==> !(|s| >= 7 && s[0] == '#' && (AllLowerHex(s[1..7]) || AllUpperHex(s[1..7])))
  {
    if |s| >= 7 && s[0] == '#' && AllLowerHex(s[1..7]) then
      assert s[..7] == "#" + s[1..7];
      Some(HexCode(s[1..7]))
    else if |s| >= 7 && s[0] == '#' && AllUpperHex(s[1..7]) then
      assert s[..7] == "#" + s[1..7];
      Some(HexCode(s[1..7]))
    else None
  }

  /** `name(` then `n` groups then `)`, at the front of `s`; `open` is the
      length of `name(`. */
  function MatchCallAfter(s: string, open: nat, n: nat): Option<Token>
    requires 1 <= open <= |s| && n >= 1
  {
    var p := ParseArgs(s, open, n, true);
    if p.Some? && p.value.1 < |s| && s[p.value.1] == ')' then Some(Call(s[..open - 1], p.value.0))
    else None
  }

  /** Assembling the text a call branch consumed: the name, `(`, the groups
      and `)`. */
  lemma CallText(s: string, open: nat, e: nat, args: seq<Arg>)
    requires 1 <= open <= e < |s| && s[open - 1] == '(' && s[e] == ')'
    requires s[open..e] == RenderArgs(args)
    ensures StartsWith(s, Render(Call(s[..open - 1], args)))
  {
    SliceAround(s, 0, open - 1, e + 1);
    SliceAround(s, open, e, e + 1);
  }

  /** A call the branch matches has the name before `(`, `n` well-formed
      groups, and stands at the front of `s`. */
  lemma MatchCallAfterSound(s: string, open: nat, n: nat)
    requires 1 <= open <= |s| && n >= 1 && s[open - 1] == '('
    ensures var r := MatchCallAfter(s, open, n);
      r.Some? ==>
        && r.value.Call? && r.value.name == s[..open - 1]
        && |r.value.args| == n && r.value.args[0].lead == [] && ArgsOk(r.value.args)
        && StartsWith(s, Render(r.value))
  {
    var p := ParseArgs(s, open, n, true);
    if p.Some? && p.value.1 < |s| && s[p.value.1] == ')' {
      var args, e := p.value.0, p.value.1;
      ParseArgsCount(s, open, n, true, args, e);
      ParseArgsOk(s, open, n, true, args, e);
      ParseArgsText(s, open, n, true, args, e);
      CallText(s, open, e, args);
    }
  }

  /** `rgb?\((\d+),\s*(\d+),\s*(\d+)\)` matched at the front of `s`: the
      third branch of the scanner, and the pattern `convert_color` applies to
      strings containing `rgb`. */
  function MatchRgb3(s: string): Option<Token> {
    var open := if StartsWith(s, "rgb(") then 4 else if StartsWith(s, "rg(") then 3 else 0;
    if open == 0 then None else MatchCallAfter(s, open, 3)
  }

  /** `rgba?\((\d+),\s*(\d+),\s*(\d+),\s*(\d+)\)` matched at the front of
      `s`: the fourth branch of the scanner, and the pattern of the `rgba`
      branch of `convert_color`. */
  function MatchRgb4(s: string): Option<Token> {
    var open := if StartsWith(s, "rgba(") then 5 else if StartsWith(s, "rgb(") then 4 else 0;
    if open == 0 then None else MatchCallAfter(s, open, 4)
  }

  /** What the three-group branch matches is a well-formed three-group call
      at the front of `s`. */
  lemma MatchRgb3Sound(s: string)
    ensures var r := MatchRgb3(s);
      r.Some? ==> r.value.Call? && |r.value.args| == 3 && WellFormed(r.value) && StartsWith(s, Render(r.value))
  {
    if StartsWith(s, "rgb(") {
      assert s[..3] == "rgb" && s[3] == '(';
      MatchCallAfterSound(s, 4, 3);
    } else if StartsWith(s, "rg(") {
      assert s[..2] == "rg" && s[2] == '(';
      MatchCallAfterSound(s, 3, 3);
    }
  }

  /** What the four-group branch matches is a well-formed four-group call
      at the front of `s`. */
  lemma MatchRgb4Sound(s: string)
    ensures var r := MatchRgb4(s);
      r.Some? ==> r.value.Call? && |r.value.args| == 4 && WellFormed(r.value) && StartsWith(s, Render(r.value))
  {
    if StartsWith(s, "rgba(") {
      assert s[..4] == "rgba" && s[4] == '(';
      MatchCallAfterSound(s, 5, 4);
    } else if StartsWith(s, "rgb(") {
      assert s[..3] == "rgb" && s[3] == '(';
      MatchCallAfterSound(s, 4, 4);
    }
  }

  /** The scanner's whole pattern tried at the front of `s`: the first
      branch that matches wins. */
  function MatchAt(s: string): (r: Option<Token>)
    ensures r.Some? ==> WellFormed(r.value) && StartsWith(s, Render(r.value))
  {
    MatchRgb3Sound(s);
    MatchRgb4Sound(s);
    if MatchHex(s).Some? then MatchHex(s)
    else if MatchRgb3(s).Some? then MatchRgb3(s)
    else MatchRgb4(s)
  }

  // ---------------------------------------------------------------------
  // Round trip: the pattern finds exactly the tokens it can produce
  // ---------------------------------------------------------------------

  /** Reading the groups one at a time. */
  lemma {:induction false} ArgsOkAll(args: seq<Arg>)
    ensures ArgsOk(args) <==> forall k :: 0 <= k < |args| ==> GroupOk(args[k])
    decreases |args|
  {
    if |args| > 0 {
      ArgsOkAll(args[1..]);
      forall k | 0 < k < |args|
        ensures args[k] == args[1..][k - 1]
      {
      }
    }
  }

  /** A call stands at the front of `s`: its name, `(`, its groups one by
      one, and `)` at index `close`. */
  predicate CallAt(s: string, name: string, args: seq<Arg>, close: nat) {
    && |name| < |s| && s[..|name|] == name && s[|name|] == '('
    && ArgsAt(s, |name| + 1, args, close) && close < |s| && s[close] == ')'
  }

  /** The text of a call, followed by anything, is laid out as `CallAt`
      says. */
  lemma CallLayout(s: string, name: string, args: seq<Arg>, rest: string)
    requires |args| >= 1 && s == name + "(" + RenderArgs(args) + ")" + rest
    ensures CallAt(s, name, args, |name| + 1 + |RenderArgs(args)|)
  {
    var open, r := |name| + 1, RenderArgs(args);
    assert s[..|name|] == name && s[|name|] == '(';
    assert s[open..open + |r|] == r && s[open + |r|] == ')';
    ArgsAtOfText(s, open, args);
  }

  /** Dropping the last of several groups leaves groups followed by a
      comma. */
  lemma {:induction false} ArgsAtDropLast(s: string, j: nat, args: seq<Arg>, e: nat) returns (e': nat)
    requires |args| >= 2 && ArgsAt(s, j, args, e)
    ensures ArgsAt(s, j, args[..|args| - 1], e') && e' < |s| && s[e'] == ','
    decreases |args|
  {
    var e1 := j + |ArgText(args[0])|;
    var init := args[..|args| - 1];
    if |args| == 2 {
      e' := e1;
      assert init == [args[0]];
    } else {
      e' := ArgsAtDropLast(s, e1 + 1, args[1..], e);
      assert init[0] == args[0];
      assert init[1..] == args[1..][..|args[1..]| - 1];
    }
  }

  /** What the call branch returns once the groups have been parsed. */
  lemma MatchCallAfterOf(s: string, open: nat, n: nat, args: seq<Arg>, e: nat)
    requires 1 <= open <= |s| && n >= 1
    requires ParseArgs(s, open, n, true) == Some((args, e))
    ensures e < |s| && s[e] == ')' ==> MatchCallAfter(s, open, n) == Some(Call(s[..open - 1], args))
    ensures !(e < |s| && s[e] == ')') ==> MatchCallAfter(s, open, n) == None
  {
  }

  /** A call's text is matched by the branch for its number of groups. */
  lemma MatchCallRendered(s: string, name: string, args: seq<Arg>, close: nat)
    requires |args| >= 1 && ArgsOk(args) && args[0].lead == []
    requires CallAt(s, name, args, close)
    ensures MatchCallAfter(s, |name| + 1, |args|) == Some(Call(name, args))
  {
    ParseRendered(s, |name| + 1, args, true, close);
    MatchCallAfterOf(s, |name| + 1, |args|, args, close);
  }

  /** The three-group branch does not match a four-group call: after the
      third group it finds a comma, not `)`. */
  lemma MatchCallTooFew(s: string, name: string, args: seq<Arg>, close: nat)
    requires |args| == 4 && ArgsOk(args) && args[0].lead == []
    requires CallAt(s, name, args, close)
    ensures MatchCallAfter(s, |name| + 1, 3) == None
  {
    var e3 := ArgsAtDropLast(s, |name| + 1, args, close);
    var three := args[..3];
    ArgsOkAll(args);
    ArgsOkAll(three);
    ParseRendered(s, |name| + 1, three, true, e3);
    MatchCallAfterOf(s, |name| + 1, 3, three, e3);
  }

  /** What the call branches find where a well-formed call stands: the
      branch for its number of groups matches it, and a three-group branch
      does not match four groups. */
  lemma CallFacts(s: string, name: string, args: seq<Arg>, close: nat)
    requires WellFormed(Call(name, args)) && CallAt(s, name, args, close)
    ensures MatchCallAfter(s, |name| + 1, |args|) == Some(Call(name, args))
    ensures |args| == 4 ==> MatchCallAfter(s, |name| + 1, 3) == None
  {
    MatchCallRendered(s, name, args, close);
    if |args| == 4 {
      MatchCallTooFew(s, name, args, close);
    }
  }

  /** Which of the call prefixes `s` starts with, when it starts with
      `name(` for one of the three names. */
  lemma CallPrefix(s: string, name: string)
    requires name == "rg" || name == "rgb" || name == "rgba"
    requires |name| < |s| && s[..|name|] == name && s[|name|] == '('
    ensures s[0] == 'r'
    ensures StartsWith(s, "rg(") <==> name == "rg"
    ensures StartsWith(s, "rgb(") <==> name == "rgb"
    ensures StartsWith(s, "rgba(") <==> name == "rgba"
  {
    assert s[0] == name[0] && s[1] == name[1];
    if name == "rg" {
      assert s[..3] == s[..2] + [s[2]];
    } else if name == "rgb" {
      assert s[2] == name[2];
      assert s[..4] == s[..3] + [s[3]];
    } else {
      assert s[2] == name[2] && s[3] == name[3];
      assert s[..5] == s[..4] + [s[4]];
    }
  }

  /** The alternation picks the branch for the call's name and number of
      groups. */
  lemma CallDispatch(s: string, name: string, args: seq<Arg>)
    requires WellFormed(Call(name, args))
    requires |name| < |s| && s[..|name|] == name && s[|name|] == '('
    requires MatchCallAfter(s, |name| + 1, |args|) == Some(Call(name, args))
    requires |args| == 4 ==> MatchCallAfter(s, |name| + 1, 3) == None
    ensures MatchAt(s) == Some(Call(name, args))
    ensures MatchRgb3(s) == if |args| == 3 then Some(Call(name, args)) else None
  {
    CallPrefix(s, name);
    var t, open, n := Call(name, args), |name| + 1, |args|;
    if name == "rg" {
      DispatchRg(s, t, open, n);
    } else if name == "rgb" && n == 3 {
      DispatchRgb3(s, t, open, n);
    } else if name == "rgb" {
      DispatchRgb4(s, t, open, n);
    } else {
      DispatchRgba(s, t, open, n);
    }
  }

  // One lemma per name and number of groups: which branch of the
  // alternation sees the call, and what the three-group pattern finds.

  lemma DispatchRg(s: string, t: Token, open: nat, n: nat)
    requires !StartsWith(s, "rgb(") && StartsWith(s, "rg(") && s[0] == 'r'
    requires open == 3 && n == 3 && MatchCallAfter(s, open, n) == Some(t)
    ensures MatchAt(s) == Some(t) && MatchRgb3(s) == Some(t)
  {
  }

  lemma DispatchRgb3(s: string, t: Token, open: nat, n: nat)
    requires StartsWith(s, "rgb(") && s[0] == 'r'
    requires open == 4 && n == 3 && MatchCallAfter(s, open, n) == Some(t)
    ensures MatchAt(s) == Some(t) && MatchRgb3(s) == Some(t)
  {
  }

  lemma DispatchRgb4(s: string, t: Token, open: nat, n: nat)
    requires StartsWith(s, "rgb(") && !StartsWith(s, "rgba(") && s[0] == 'r'
    requires open == 4 && n == 4 && MatchCallAfter(s, open, n) == Some(t)
    requires MatchCallAfter(s, open, 3) == None
    ensures MatchAt(s) == Some(t) && MatchRgb3(s) == None
  {
  }

  lemma DispatchRgba(s: string, t: Token, open: nat, n: nat)
    requires !StartsWith(s, "rgb(") && !StartsWith(s, "rg(") && StartsWith(s, "rgba(") && s[0] == 'r'
    requires open == 5 && n == 4 && MatchCallAfter(s, open, n) == Some(t)
    ensures MatchAt(s) == Some(t) && MatchRgb3(s) == None
  {
  }

  /** Every token the pattern can produce is found again, whole, at the
      front of its own text, whatever follows it; and the three-group
      pattern alone finds exactly the three-group calls. */
  lemma MatchRendered(t: Token, rest: string)
    requires WellFormed(t)
    ensures MatchAt(Render(t) + rest) == Some(t)
    ensures t.Call? ==> MatchRgb3(Render(t) + rest) == if |t.args| == 3 then Some(t) else None
  {
    var s := Render(t) + rest;
    match t
    case HexCode(d) =>
      assert s[1..7] == d;
    case Call(name, args) =>
      var close := |name| + 1 + |RenderArgs(args)|;
      CallLayout(s, name, args, rest);
      CallFacts(s, name, args, close);
      CallDispatch(s, name, args);
  }

  /** The pattern matches at the front of `s` exactly when `s` starts with
      the text of a token it can produce, and it returns that token. */
  lemma MatchAtMeans(s: string, t: Token)
    ensures MatchAt(s) == Some(t) <==> WellFormed(t) && StartsWith(s, Render(t))
  {
    if WellFormed(t) && StartsWith(s, Render(t)) {
      var rest := s[|Render(t)|..];
      assert s == Render(t) + rest;
      MatchRendered(t, rest);
    }
  }
}
