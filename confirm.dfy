/** The yes/no confirmation: each answer line is trimmed and lower-cased;
    empty, "n" or "no" declines, "y" or "yes" accepts, anything else asks
    again. Standard input is the sequence of lines the user types; once it is
    exhausted a read gives the empty line, which declines. */
module Confirm {

  /** ASCII whitespace: space, tab, line feed, vertical tab, form feed,
      carriage return. */
  predicate IsWhitespace(c: char) { c == ' ' || '\t' <= c <= '\r' }

  function TrimStart(s: string): string
  {
    if s != [] && IsWhitespace(s[0]) then TrimStart(s[1..]) else s
  }

  function TrimEnd(s: string): string
  {
    if s != [] && IsWhitespace(s[|s| - 1]) then TrimEnd(s[..|s| - 1]) else s
  }

  /** `str::trim`: whitespace removed from both ends. */
  function Trim(s: string): string
  {
    TrimEnd(TrimStart(s))
  }

  lemma {:induction false} TrimStartShape(s: string)
    ensures var t := TrimStart(s);
      && |t| <= |s| && t == s[|s| - |t|..]
      && (t == [] || !IsWhitespace(t[0]))
      && (forall k :: 0 <= k < |s| - |t| ==> IsWhitespace(s[k]))
  {
    if s != [] && IsWhitespace(s[0]) {
      var s' := s[1..];
      var t := TrimStart(s');
      assert TrimStart(s) == t;
      TrimStartShape(s');
      assert s'[|s'| - |t|..] == s[|s| - |t|..];
      forall k | 0 <= k < |s| - |t|
        ensures IsWhitespace(s[k])
      {
        if k > 0 {
          assert s[k] == s'[k - 1];
        }
      }
    }
  }

  lemma {:induction false} TrimEndShape(s: string)
    ensures var t := TrimEnd(s);
      && |t| <= |s| && t == s[..|t|]
      && (t == [] || !IsWhitespace(t[|t| - 1]))
      && (forall k :: |t| <= k < |s| ==> IsWhitespace(s[k]))
  {
    if s != [] && IsWhitespace(s[|s| - 1]) {
      var s' := s[..|s| - 1];
      var t := TrimEnd(s');
      assert TrimEnd(s) == t;
      TrimEndShape(s');
      assert s'[..|t|] == s[..|t|];
      forall k | |t| <= k < |s|
        ensures IsWhitespace(s[k])
      {
        if k < |s| - 1 {
          assert s[k] == s'[k];
        }
      }
    }
  }

  predicate AllWhitespace(w: string)
  {
    forall k :: 0 <= k < |w| ==> IsWhitespace(w[k])
  }

  /** The trimmed text is a slice of the input, starting after the leading
      whitespace, with no whitespace at either end; everything cut away on
      either side is whitespace. */
  lemma TrimShape(s: string)
    ensures var t, i := Trim(s), |s| - |TrimStart(s)|;
      && 0 <= i <= |s| - |t|
      && t == s[i..i + |t|]
      && (t == [] || (!IsWhitespace(t[0]) && !IsWhitespace(t[|t| - 1])))
      && AllWhitespace(s[..i])
      && AllWhitespace(s[i + |t|..])
  {
    var u := TrimStart(s);
    var t := TrimEnd(u);
    var i := |s| - |u|;
    TrimStartShape(s);
    TrimEndShape(u);
    assert Trim(s) == t;
    assert t == [] || (!IsWhitespace(t[0]) && !IsWhitespace(t[|t| - 1])) by {
      if t != [] {
        assert t[0] == u[0];
      }
    }
    assert u == s[i..];
    assert t == s[i..i + |t|] by {
      assert u[..|t|] == s[i..][..|t|];
    }
    assert AllWhitespace(s[..i]) by {
      forall k | 0 <= k < i
        ensures IsWhitespace(s[..i][k])
      {
        assert s[..i][k] == s[k];
      }
    }
    assert AllWhitespace(s[i + |t|..]) by {
      assert s[i + |t|..] == u[|t|..];
      forall k | 0 <= k < |u| - |t|
        ensures IsWhitespace(u[|t|..][k])
      {
        assert u[|t|..][k] == u[|t| + k];
      }
    }
  }

  lemma {:induction false} TrimStartSkips(w: string, x: string)
    requires AllWhitespace(w)
    ensures TrimStart(w + x) == TrimStart(x)
  {
    if w != [] {
      assert (w + x)[1..] == w[1..] + x;
      TrimStartSkips(w[1..], x);
    } else {
      assert w + x == x;
    }
  }

  lemma {:induction false} TrimEndSkips(x: string, w: string)
    requires AllWhitespace(w)
    ensures TrimEnd(x + w) == TrimEnd(x)
  {
    if w != [] {
      var w' := w[..|w| - 1];
      assert (x + w)[..|x + w| - 1] == x + w';
      TrimEndSkips(x, w');
    } else {
      assert x + w == x;
    }
  }

  /** Trailing whitespace passes through the start trim, unless the text is
      whitespace only. */
  lemma {:induction false} TrimStartKeepsTail(x: string, w: string)
    requires AllWhitespace(w)
    ensures TrimStart(x + w) == if TrimStart(x) == [] then [] else TrimStart(x) + w
  {
    if x == [] {
      assert x + w == w;
      TrimStartSkips(w, []);
      assert w + [] == w;
    } else {
      assert (x + w)[1..] == x[1..] + w;
      TrimStartKeepsTail(x[1..], w);
    }
  }

  /** Whitespace around an answer does not change its trim. */
  lemma TrimIgnoresPadding(w1: string, line: string, w2: string)
    requires AllWhitespace(w1) && AllWhitespace(w2)
    ensures Trim(w1 + line + w2) == Trim(line)
  {
    assert w1 + line + w2 == w1 + (line + w2);
    TrimStartSkips(w1, line + w2);
    TrimStartKeepsTail(line, w2);
    if TrimStart(line) != [] {
      TrimEndSkips(TrimStart(line), w2);
    }
  }

  function LowerChar(c: char): char
  {
    if 'A' <= c <= 'Z' then (c as int + 32) as char else c
  }

  /** `to_lowercase` on ASCII letters. */
  function Lower(s: string): (t: string)
    ensures |t| == |s|
  {
    seq(|s|, i requires 0 <= i < |s| => LowerChar(s[i]))
  }

  datatype Answer = Decline | Accept | Reprompt

  /** What one answer line means. */
  function Classify(line: string): Answer
  {
    var answer := Lower(Trim(line));
    if answer == [] || answer == "n" || answer == "no" then Decline
    else if answer == "y" || answer == "yes" then Accept
    else Reprompt
  }

  /** The outcome of the whole exchange: the first line that is not a
      re-prompt decides; running out of input declines. */
  function Confirmed(lines: seq<string>): bool
  {
    if lines == [] then false
    else match Classify(lines[0])
      case Accept => true
      case Decline => false
      case Reprompt => Confirmed(lines[1..])
  }

  /** The exchange accepts exactly when some line accepts and every line
      before it asks again. */
  lemma {:induction false} ConfirmedIff(lines: seq<string>)
    ensures Confirmed(lines) <==>
      exists k :: 0 <= k < |lines| && Classify(lines[k]) == Accept
        && forall j :: 0 <= j < k ==> Classify(lines[j]) == Reprompt
  {
    if lines != [] {
      ConfirmedIff(lines[1..]);
      if Classify(lines[0]) == Reprompt {
        if Confirmed(lines) {
          var k :| 0 <= k < |lines| - 1 && Classify(lines[1..][k]) == Accept
            && forall j :: 0 <= j < k ==> Classify(lines[1..][j]) == Reprompt;
          assert Classify(lines[k + 1]) == Accept;
          assert forall j :: 0 <= j < k + 1 ==> Classify(lines[j]) == Reprompt by {
            forall j | 0 <= j < k + 1 ensures Classify(lines[j]) == Reprompt {
              if j > 0 { assert lines[j] == lines[1..][j - 1]; }
            }
          }
        } else {
          forall k | 0 <= k < |lines| && Classify(lines[k]) == Accept
            ensures exists j :: 0 <= j < k && Classify(lines[j]) != Reprompt
          {
            assert k > 0;
            assert lines[k] == lines[1..][k - 1];
            var j :| 0 <= j < k - 1 && Classify(lines[1..][j]) != Reprompt;
            assert lines[1..][j] == lines[j + 1];
          }
        }
      } else if Classify(lines[0]) == Decline {
        forall k | 0 <= k < |lines| && Classify(lines[k]) == Accept
          ensures exists j :: 0 <= j < k && Classify(lines[j]) != Reprompt
        {
          assert k > 0 && Classify(lines[0]) != Reprompt;
        }
      }
    }
  }

  /** Whitespace on either side of an answer never changes what it means. */
  lemma ClassifyIgnoresPadding(w1: string, line: string, w2: string)
    requires AllWhitespace(w1) && AllWhitespace(w2)
    ensures Classify(w1 + line + w2) == Classify(line)
  {
    TrimIgnoresPadding(w1, line, w2);
  }

  /** Some concrete answers: the trailing newline and the letter case do not
      matter. */
  lemma ClassifyExamples()
    ensures Classify("y\n") == Accept && Classify(" YES\r\n") == Accept
    ensures Classify("\n") == Decline && Classify("No\n") == Decline
    ensures Classify("maybe\n") == Reprompt
  {
    assert "y\n"[..1] == "y" && Lower("y") == "y";
    assert " YES\r\n"[1..] == "YES\r\n";
    assert "YES\r\n"[..4] == "YES\r" && "YES\r"[..3] == "YES";
    assert Lower("YES") == "yes";
    assert "No\n"[..2] == "No" && Lower("No") == "no";
    assert "maybe\n"[..5] == "maybe";
  }

  /** `confirm_continue`: reads lines until one decides. `used` is how many
      lines were consumed. */
  method ConfirmContinue(lines: seq<string>) returns (yes: bool, used: nat)
    ensures yes == Confirmed(lines)
    ensures used <= |lines|
    ensures forall j :: 0 <= j < used - 1 ==> Classify(lines[j]) == Reprompt
    ensures yes ==> 0 < used && Classify(lines[used - 1]) == Accept
    ensures !yes ==>
      || (0 < used && Classify(lines[used - 1]) == Decline)
      || (used == |lines| && forall j :: 0 <= j < |lines| ==> Classify(lines[j]) == Reprompt)
  {
    var i := 0;
    while true
      invariant i <= |lines|
      invariant forall j :: 0 <= j < i ==> Classify(lines[j]) == Reprompt
      invariant Confirmed(lines) == Confirmed(lines[i..])
      decreases |lines| - i
    {
      var input := if i < |lines| then lines[i] else "";
      if i < |lines| {
        assert lines[i..][1..] == lines[i + 1..];
        i := i + 1;
      }
      var answer := Lower(Trim(input));
      if answer == [] || answer == "n" || answer == "no" {
        return false, i;
      }
      if answer == "y" || answer == "yes" {
        return true, i;
      }
    }
  }
}
