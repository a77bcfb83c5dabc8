/** Which of the substrings `convert_color` tests for (`'rgb' in s`,
    `'rgba' in s`) occur in the text of a token. After the name, a call's
    text holds only digits, whitespace, commas and parentheses, so the only
    place a name can start is the front. */
module TokenText {
  import opened CharClass
  import opened Strings
  import opened Tokens

  /** A character that may follow a call's name in its text. */
  predicate CallChar(c: char) {
    IsDigit(c) || IsSpace(c) || c == ',' || c == '(' || c == ')'
  }

  lemma ArgTextChars(a: Arg)
    requires GroupOk(a)
    ensures forall k :: 0 <= k < |ArgText(a)| ==> CallChar(ArgText(a)[k])
  {
    GroupOkMeans(a);
    forall k | 0 <= k < |ArgText(a)|
      ensures CallChar(ArgText(a)[k])
    {
      if k < |a.lead| {
        assert ArgText(a)[k] == a.lead[k];
      } else {
        assert ArgText(a)[k] == a.digits[k - |a.lead|];
      }
    }
  }

  /** The text of well-formed groups holds only digits, whitespace and
      commas. */
  lemma {:induction false} RenderArgsChars(args: seq<Arg>)
    requires ArgsOk(args)
    ensures forall k :: 0 <= k < |RenderArgs(args)| ==> CallChar(RenderArgs(args)[k])
    decreases |args|
  {
    if |args| > 0 {
      ArgTextChars(args[0]);
      if |args| > 1 {
        RenderArgsChars(args[1..]);
        var head, tail := ArgText(args[0]), RenderArgs(args[1..]);
        assert RenderArgs(args) == head + [','] + tail;
        forall k | 0 <= k < |RenderArgs(args)|
          ensures CallChar(RenderArgs(args)[k])
        {
          if k < |head| {
            assert RenderArgs(args)[k] == head[k];
          } else if k > |head| {
            assert RenderArgs(args)[k] == tail[k - |head| - 1];
          }
        }
      }
    }
  }

  /** After its first character, the text of a token never holds an `r`. */
  lemma NoLaterR(t: Token)
    requires WellFormed(t)
    ensures forall k :: 1 <= k < |Render(t)| ==> Render(t)[k] != 'r'
  {
    var s := Render(t);
    match t
    case HexCode(d) =>
      forall k | 1 <= k < |s|
        ensures s[k] != 'r'
      {
        assert s[k] == d[k - 1];
      }
    case Call(name, args) =>
      RenderArgsChars(args);
      var r := RenderArgs(args);
      assert s == name + ['('] + r + [')'];
      forall k | 1 <= k < |s|
        ensures s[k] != 'r'
      {
        if k < |name| {
          assert s[k] == name[k];
        } else if k == |name| {
          assert s[k] == '(';
        } else if k < |name| + 1 + |r| {
          assert s[k] == r[k - |name| - 1];
        } else {
          assert s[k] == ')';
        }
      }
  }

  /** `'rgb' in s` and `'rgba' in s` for the text of a token: only a call
      named `rgb` or `rgba` holds `rgb`, only one named `rgba` holds
      `rgba`. */
  lemma TokenContains(t: Token)
    requires WellFormed(t)
    ensures Contains(Render(t), "rgb") <==> t.Call? && t.name != "rg"
    ensures Contains(Render(t), "rgba") <==> t.Call? && t.name == "rgba"
  {
    var s := Render(t);
    NoLaterR(t);
    OnlyAtFront(s, "rgb");
    OnlyAtFront(s, "rgba");
    match t
    case HexCode(d) =>
      assert s[0] == '#';
    case Call(name, args) =>
      assert s == name + "(" + RenderArgs(args) + ")";
      if name == "rg" {
        assert s[2] == '(';
      } else if name == "rgb" {
        assert s[..3] == "rgb" && s[3] == '(';
      } else {
        assert s[..4] == "rgba";
      }
  }
}
