/** The scan of one line for colour tokens: `re.finditer`. The scan tries
    a pattern at each position from the left; after a match it resumes
    where the match ended, otherwise one character further on. No token is
    empty, so no empty match arises. The scan is stated for any pattern
    `m` that reads a token off the front of a string; the line loop uses
    it with `MatchAt`, the pattern of the colour tokens. */
module Scanner {
  import opened Options
  import opened Strings
  import opened Tokens

  /** A match: where it starts in the line, and what it matched. */
  datatype Found = Found(pos: nat, token: Token)

  /** Where the scan resumes after a match. */
  function End(f: Found): nat {
    f.pos + |Render(f.token)|
  }

  lemma RenderNonEmpty(t: Token)
    ensures |Render(t)| > 0
  {
    match t
    case HexCode(d) =>
    case Call(name, args) => assert Render(t) == name + "(" + RenderArgs(args) + ")";
  }

  /** A pattern: the token it matches at the front of a string, if any. */
  type Pattern = string -> Option<Token>

  /** The matches `finditer` yields from position `i` on. */
  function Scan(m: Pattern, line: string, i: nat): (fs: seq<Found>)
    ensures forall k :: 0 <= k < |fs| ==> i <= fs[k].pos < |line|
    decreases |line| - i
  {
    if i >= |line| then []
    else match m(line[i..])
      case Some(t) =>
        RenderNonEmpty(t);
        [Found(i, t)] + Scan(m, line, i + |Render(t)|)
      case None => Scan(m, line, i + 1)
  }

  /** No match starts anywhere in `[a, b)`. */
  predicate NoMatchIn(m: Pattern, line: string, a: nat, b: nat) {
    forall p :: a <= p < b && p <= |line| ==> m(line[p..]).None?
  }

  /** The leftmost reading of a scan from `i`, stated without reference to
      how the scan proceeds: the pattern matches nowhere in the gap before
      the first match, the first match is what the pattern finds at its
      position, and the rest is a leftmost reading from where it ends. */
  predicate Leftmost(m: Pattern, line: string, i: nat, fs: seq<Found>)
    decreases |fs|
  {
    if |fs| == 0 then NoMatchIn(m, line, i, |line|)
    else
      && i <= fs[0].pos < |line|
      && NoMatchIn(m, line, i, fs[0].pos)
      && m(line[fs[0].pos..]) == Some(fs[0].token)
      && Leftmost(m, line, End(fs[0]), fs[1..])
  }

  /** Every match of a leftmost reading lies inside the line, at or after
      `i`, is found by the pattern at its position, and ends before the
      next one starts. */
  lemma {:induction false} LeftmostOrdered(m: Pattern, line: string, i: nat, fs: seq<Found>)
    requires Leftmost(m, line, i, fs)
    ensures forall k :: 0 <= k < |fs| ==> i <= fs[k].pos < |line| && m(line[fs[k].pos..]) == Some(fs[k].token)
    ensures forall k :: 0 <= k < |fs| - 1 ==> End(fs[k]) <= fs[k + 1].pos
    decreases |fs|
  {
    if |fs| > 0 {
      LeftmostOrdered(m, line, End(fs[0]), fs[1..]);
      assert forall k :: 1 <= k < |fs| ==> fs[k] == fs[1..][k - 1];
    }
  }

  /** Where the pattern does not match at `i`, a leftmost reading from `i`
      is one from `i + 1`, and conversely. */
  lemma LeftmostSkip(m: Pattern, line: string, i: nat, fs: seq<Found>)
    requires i < |line| && m(line[i..]).None?
    ensures Leftmost(m, line, i, fs) <==> Leftmost(m, line, i + 1, fs)
  {
  }

  /** The scan is the leftmost reading of the line from `i`, and the only
      one. */
  lemma {:induction false} ScanMeans(m: Pattern, line: string, i: nat, fs: seq<Found>)
    ensures Leftmost(m, line, i, fs) <==> fs == Scan(m, line, i)
    decreases |line| - i
  {
    if i >= |line| {
      assert Leftmost(m, line, i, []);
    } else {
      match m(line[i..])
      case Some(t) =>
        RenderNonEmpty(t);
        var f := Found(i, t);
        var rest := Scan(m, line, End(f));
        assert Scan(m, line, i) == [f] + rest;
        ScanMeans(m, line, End(f), rest);
        assert ([f] + rest)[1..] == rest;
        if Leftmost(m, line, i, fs) {
          assert 0 < |fs| && fs[0].pos == i;
          assert fs[0] == f;
          ScanMeans(m, line, End(f), fs[1..]);
          assert fs == [f] + fs[1..];
        }
      case None =>
        ScanMeans(m, line, i + 1, fs);
        LeftmostSkip(m, line, i, fs);
    }
  }

  /** The matches of a whole line, in the order the loop over them meets
      them. */
  method ScanLine(m: Pattern, line: string) returns (fs: seq<Found>)
    ensures fs == Scan(m, line, 0)
    ensures Leftmost(m, line, 0, fs)
  {
    fs := [];
    var i := 0;
    while i < |line|
      invariant fs + Scan(m, line, i) == Scan(m, line, 0)
      decreases |line| - i
    {
      match m(line[i..])
      case Some(t) =>
        RenderNonEmpty(t);
        fs := fs + [Found(i, t)];
        i := i + |Render(t)|;
      case None =>
        i := i + 1;
    }
    ScanMeans(m, line, 0, fs);
  }
}
