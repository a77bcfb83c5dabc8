/** The loop that rewrites one line of a style sheet: every token the scan
    finds in the original line is handed to `convert_color`, and where that
    gives a grey, every occurrence of the token's text in the line being
    built is replaced by it, in the order the scan found the tokens. */
module Rewrite {
  import opened Options
  import opened Strings
  import opened Tokens
  import opened FixColor
  import opened Scanner

  // ---------------------------------------------------------------------
  // The loop as written
  // ---------------------------------------------------------------------

  /** The matches of a line, in scan order. */
  function Matches(line: string): seq<Found> {
    Scan(MatchAt, line, 0)
  }

  /** The loop body for one match: the line built so far after the
      match's colour, if `convert_color` gives one, replaces every
      occurrence of the match's text. A colour `convert_color` returns is
      never empty, so the test of its truth is the test that it returned
      one. */
  function Step(cur: string, t: Token): Outcome<string> {
    var text := Render(t);
    RenderNonEmpty(t);
    match ConvertColor(text)
    case Raises(e) => Raises(e)
    case ReturnsNone => Returns(cur)
    case Returns(grey) => Returns(ReplaceAll(cur, text, grey))
  }

  /** The loop body applied to the matches `fs` in turn, starting from the
      line built so far. An exception from `convert_color` ends the loop. */
  function ApplyAll(cur: string, fs: seq<Found>): Outcome<string>
    decreases |fs|
  {
    if |fs| == 0 then Returns(cur)
    else
      var o := Step(cur, fs[0].token);
      if o.Returns? then ApplyAll(o.value, fs[1..]) else o
  }

  /** The line written out for `line`. */
  function RewriteLine(line: string): Outcome<string> {
    ApplyAll(line, Matches(line))
  }

  /** The loop, one match at a time. */
  method ProcessLine(line: string) returns (r: Outcome<string>)
    ensures r == RewriteLine(line)
    ensures AllWellFormed(Matches(line))
    ensures r == Returns(Substitute(line, Matches(line)))
  {
    var fs := ScanLine(MatchAt, line);
    var newLine := line;
    var k := 0;
    while k < |fs|
      invariant k <= |fs|
      invariant ApplyAll(newLine, fs[k..]) == ApplyAll(line, fs)
    {
      assert fs[k..][1..] == fs[k + 1..];
      var o := Step(newLine, fs[k].token);
      if !o.Returns? {
        r := o;
        RewriteLineMeans(line);
        return;
      }
      newLine := o.value;
      k := k + 1;
    }
    r := Returns(newLine);
    RewriteLineMeans(line);
  }

  // ---------------------------------------------------------------------
  // What the loop computes
  // ---------------------------------------------------------------------

  /** The grey a converted token stands for, from its channels. */
  function Grey(t: Token): string
    requires WellFormed(t) && Converted(t)
  {
    match t
    case HexCode(d) => GreyHex(Luminance(HexChannels(d)))
    case Call(_, args) => GreyRgb(Luminance(CallChannels(args)))
  }

  /** What `convert_color` gives for a token the scan can find. */
  lemma ConvertGrey(t: Token)
    requires WellFormed(t)
    ensures ConvertColor(Render(t)) == if Converted(t) then Returns(Grey(t)) else ReturnsNone
  {
    ConvertToken(t);
    match t
    case HexCode(d) => ConvertHexToken(d);
    case Call(name, args) =>
      if Converted(t) {
        ConvertRgbToken(args);
      }
  }

  /** Every match the scan yields is a token the pattern can produce,
      standing in the line at its position. */
  lemma MatchesFound(line: string)
    ensures forall k :: 0 <= k < |Matches(line)| ==>
      && WellFormed(Matches(line)[k].token)
      && OccursAt(line, Render(Matches(line)[k].token), Matches(line)[k].pos)
  {
    var fs := Matches(line);
    ScanMeans(MatchAt, line, 0, fs);
    LeftmostOrdered(MatchAt, line, 0, fs);
    forall k | 0 <= k < |fs|
      ensures WellFormed(fs[k].token) && OccursAt(line, Render(fs[k].token), fs[k].pos)
    {
      FoundAt(line, fs[k].pos, fs[k].token);
    }
  }

  lemma FoundAt(line: string, p: nat, t: Token)
    requires p <= |line| && MatchAt(line[p..]) == Some(t)
    ensures WellFormed(t) && OccursAt(line, Render(t), p)
  {
    var text := Render(t);
    assert StartsWith(line[p..], text);
    assert line[p..][..|text|] == line[p..p + |text|];
  }

  /** One step of the loop replaces every occurrence of a converted token's
      text, not just the one the scan found: the line is cut at each
      occurrence, no piece still holds the text, and the pieces are joined
      with the grey. A token `convert_color` skips leaves the line alone. */
  lemma StepReplacesAll(cur: string, t: Token)
    requires WellFormed(t)
    ensures Converted(t) ==>
      && Step(cur, t) == Returns(Join(Split(cur, Render(t)), Grey(t)))
      && forall k :: 0 <= k < |Split(cur, Render(t))| ==> !Contains(Split(cur, Render(t))[k], Render(t))
    ensures !Converted(t) ==> Step(cur, t) == Returns(cur)
  {
    ConvertGrey(t);
    RenderNonEmpty(t);
    if Converted(t) {
      ReplaceAllIsSplitJoin(cur, Render(t), Grey(t));
      SplitPiecesFree(cur, Render(t));
    }
  }

  /** Matches that are all tokens the pattern can produce. */
  predicate AllWellFormed(fs: seq<Found>) {
    forall k :: 0 <= k < |fs| ==> WellFormed(fs[k].token)
  }

  /** Successive replace-all steps, each replacing every occurrence of a
      converted token's text by its grey, in scan order. */
  function Substitute(cur: string, fs: seq<Found>): string
    requires AllWellFormed(fs)
    decreases |fs|
  {
    if |fs| == 0 then cur
    else
      var t := fs[0].token;
      if Converted(t) then
        RenderNonEmpty(t);
        Substitute(ReplaceAll(cur, Render(t), Grey(t)), fs[1..])
      else Substitute(cur, fs[1..])
  }

  /** On tokens the pattern can produce, the loop with exact luminance
      never raises, and it computes the successive replacements. */
  lemma {:induction false} ApplyAllIsSubstitute(cur: string, fs: seq<Found>)
    requires AllWellFormed(fs)
    ensures ApplyAll(cur, fs) == Returns(Substitute(cur, fs))
    decreases |fs|
  {
    if |fs| > 0 {
      var t := fs[0].token;
      ConvertGrey(t);
      RenderNonEmpty(t);
      assert Step(cur, t) == Returns(if Converted(t) then ReplaceAll(cur, Render(t), Grey(t)) else cur);
      assert AllWellFormed(fs[1..]);
      if Converted(t) {
        ApplyAllIsSubstitute(ReplaceAll(cur, Render(t), Grey(t)), fs[1..]);
      } else {
        ApplyAllIsSubstitute(cur, fs[1..]);
      }
    }
  }

  /** The line written out is the original line after the successive
      replacements of the tokens found in it; in particular, with exact
      luminance, the rewrite of a line never raises. */
  lemma RewriteLineMeans(line: string)
    ensures AllWellFormed(Matches(line))
    ensures RewriteLine(line) == Returns(Substitute(line, Matches(line)))
  {
    MatchesFound(line);
    ApplyAllIsSubstitute(line, Matches(line));
  }

  // ---------------------------------------------------------------------
  // Lines left as they are
  // ---------------------------------------------------------------------

  /** A token whose rewrite leaves the line alone: one `convert_color`
      skips, or one that is already grey. */
  predicate Kept(t: Token)
    requires WellFormed(t)
  {
    !Converted(t) || Grey(t) == Render(t)
  }

  /** Replacements that all keep their token change nothing. */
  lemma {:induction false} SubstituteKept(cur: string, fs: seq<Found>)
    requires AllWellFormed(fs)
    requires forall k :: 0 <= k < |fs| ==> Kept(fs[k].token)
    ensures Substitute(cur, fs) == cur
    decreases |fs|
  {
    if |fs| > 0 {
      var t := fs[0].token;
      assert AllWellFormed(fs[1..]);
      assert forall k :: 0 <= k < |fs[1..]| ==> fs[1..][k] == fs[k + 1];
      if Converted(t) {
        RenderNonEmpty(t);
        ReplaceAllSelf(cur, Render(t));
      }
      SubstituteKept(cur, fs[1..]);
    }
  }

  /** A line in which every token found is skipped by `convert_color` or
      is already grey is written out unchanged. */
  lemma UnchangedLine(line: string)
    requires AllWellFormed(Matches(line))
    requires forall k :: 0 <= k < |Matches(line)| ==> Kept(Matches(line)[k].token)
    ensures RewriteLine(line) == Returns(line)
  {
    RewriteLineMeans(line);
    SubstituteKept(line, Matches(line));
  }

  /** A line with no colour token in it is written out unchanged. */
  lemma NoTokenLine(line: string)
    requires forall p :: 0 <= p <= |line| ==> MatchAt(line[p..]).None?
    ensures Matches(line) == []
    ensures RewriteLine(line) == Returns(line)
  {
    ScanMeans(MatchAt, line, 0, []);
  }

  /** A grey token in the form `convert_color` writes is kept: a
      lower-case `#llllll`, or `rgb(l,l,l)` in plain decimal with no
      spaces. Other spellings of a grey are not covered. */
  lemma GreyKept(l: nat)
    requires l < 256
    ensures WellFormed(GreyRgbToken(l))
    ensures Kept(GreyHexToken(l))
    ensures Kept(GreyRgbToken(l))
  {
    GreyHexFixed(l);
    GreyRgbFixed(l);
    GreyRgbTokenFacts(l);
    ConvertGrey(GreyHexToken(l));
    ConvertGrey(GreyRgbToken(l));
  }
}
