/** The pieces shared by the clause-line patterns: a field up to the first space, then spaces, then text. */
module LineText {
  import opened Prelude

  function FirstSpace(s: string): (i: nat)
    ensures i <= |s|
    ensures forall k :: 0 <= k < i ==> s[k] != ' '
    ensures i < |s| ==> s[i] == ' '
  {
    if s == "" || s[0] == ' ' then 0 else 1 + FirstSpace(s[1..])
  }

  lemma {:induction false} FirstSpaceAt(s: string, i: nat)
    requires i < |s| && s[i] == ' ' && forall k :: 0 <= k < i ==> s[k] != ' '
    ensures FirstSpace(s) == i
  {
    if i > 0 {
      FirstSpaceAt(s[1..], i - 1);
    }
  }

  function SkipSpaces(s: string): string {
    if s != "" && s[0] == ' ' then SkipSpaces(s[1..]) else s
  }

  /** At least one space, then a non-empty text; of a tail of nothing but spaces the last one is the text. */
  function TextAfterSpaces(s: string): Option<string> {
    if s == "" || s[0] != ' ' then None
    else if SkipSpaces(s) != "" then Some(SkipSpaces(s))
    else if |s| > 1 then Some(" ")
    else None
  }

  lemma OneSpace(text: string)
    requires text != "" && text[0] != ' '
    ensures TextAfterSpaces(" " + text) == Some(text)
  {
    var tail := " " + text;
    assert tail[1..] == text;
    assert SkipSpaces(tail) == SkipSpaces(tail[1..]) == text;
  }

  function Spaces(k: nat): (s: string)
    ensures |s| == k && forall i :: 0 <= i < k ==> s[i] == ' '
  {
    seq(k, _ => ' ')
  }

  /** A text does not begin with a space, unless it is one and nothing else was left. */
  predicate Begins(text: string) {
    text != "" && (text[0] != ' ' || text == " ")
  }

  lemma {:induction false} SpacesSkipped(s: string) returns (k: nat)
    ensures s == Spaces(k) + SkipSpaces(s) && (SkipSpaces(s) != "" ==> SkipSpaces(s)[0] != ' ')
  {
    if s != "" && s[0] == ' ' {
      var n := SpacesSkipped(s[1..]);
      k := n + 1;
      assert s == [' '] + s[1..];
      assert Spaces(k) == [' '] + Spaces(n);
    } else {
      k := 0;
    }
  }

  lemma {:induction false} SkipsSpaces(k: nat, t: string)
    ensures SkipSpaces(Spaces(k) + t) == SkipSpaces(t)
  {
    if k == 0 {
      assert Spaces(k) + t == t;
    } else {
      assert (Spaces(k) + t)[1..] == Spaces(k - 1) + t;
      SkipsSpaces(k - 1, t);
    }
  }

  /** The text is what follows the spaces, of which there is at least one. */
  lemma TextAfterSpacesIff(s: string, t: string)
    ensures TextAfterSpaces(s) == Some(t) <==> Begins(t) && exists k: nat :: k > 0 && s == Spaces(k) + t
  {
    if TextAfterSpaces(s) == Some(t) {
      var n := SpacesSkipped(s);
      if SkipSpaces(s) == "" {
        assert s == Spaces(n - 1) + " " && n - 1 > 0;
      } else {
        assert n > 0;
      }
    }
    if k: nat :| Begins(t) && k > 0 && s == Spaces(k) + t {
      SkipsSpaces(k, t);
      assert s[0] == ' ';
      if t == " " {
        assert SkipSpaces(t) == SkipSpaces("") == "";
      }
    }
  }

  /** Python's `rstrip` with a set of characters. */
  function StripRight(s: string, drop: set<char>): (t: string)
    ensures t <= s && (t != "" ==> t[|t| - 1] !in drop)
    ensures forall i :: |t| <= i < |s| ==> s[i] in drop
  {
    if s != "" && s[|s| - 1] in drop then StripRight(s[..|s| - 1], drop) else s
  }
}
