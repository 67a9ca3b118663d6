/** Catalog tokens, over ASCII: words joined by single dashes, and the keys made from them. */
module CatalogKeys {

  function LowerChar(c: char): char {
    if 'A' <= c <= 'Z' then c - 'A' + 'a' else c
  }

  function UpperChar(c: char): char {
    if 'a' <= c <= 'z' then c - 'a' + 'A' else c
  }

  function Lower(s: string): string {
    if s == "" then "" else [LowerChar(s[0])] + Lower(s[1..])
  }

  function Upper(s: string): string {
    if s == "" then "" else [UpperChar(s[0])] + Upper(s[1..])
  }

  predicate InWord(c: char, upper: bool) {
    '0' <= c <= '9' || (if upper then 'A' <= c <= 'Z' else 'a' <= c <= 'z')
  }

  /**
   Every run of other characters becomes one dash, and dashes at the ends go. `gap`: such a run has just ended;
   `begun`: a word came before.
   */
  function Dashed(s: string, upper: bool, gap: bool, begun: bool): string {
    if s == "" then ""
    else if !InWord(s[0], upper) then Dashed(s[1..], upper, true, begun)
    else (if gap && begun then "-" else "") + [s[0]] + Dashed(s[1..], upper, false, true)
  }

  /** Words joined by single dashes, what came before ending in a dash or not. */
  predicate Joined(s: string, upper: bool, dash: bool) {
    if s == "" then !dash
    else if s[0] == '-' then !dash && Joined(s[1..], upper, true)
    else InWord(s[0], upper) && Joined(s[1..], upper, false)
  }

  /** What an item code becomes in the code of its shared element: upper-case words, or nothing. */
  type Slug = s: string | s == "" || Joined(s, true, true) witness ""

  function SlugOf(s: string): string {
    Dashed(Upper(s), true, false, false)
  }

  /** `normalize_catalog_token`. */
  function Token(s: string): string {
    var token := Dashed(Lower(s), false, false, false);
    if token == "" then "metric" else token
  }

  function ElementKeyOf(code: string): string {
    "internal:" + Token(code)
  }

  // ---------- slugs ----------

  lemma {:induction false} DashedJoins(s: string, upper: bool, gap: bool)
    ensures Joined(Dashed(s, upper, gap, true), upper, false)
    ensures var d := Dashed(s, upper, false, false); d == "" || Joined(d, upper, true)
    ensures var d := Dashed(s, upper, true, false); d == "" || Joined(d, upper, true)
  {
    if s != "" {
      DashedJoins(s[1..], upper, true);
      DashedJoins(s[1..], upper, false);
      if InWord(s[0], upper) {
        WordJoins(s[0], Dashed(s[1..], upper, false, true), upper);
      }
    }
  }

  lemma WordJoins(c: char, s: string, upper: bool)
    requires InWord(c, upper) && Joined(s, upper, false)
    ensures Joined([c] + s, upper, true) && Joined([c] + s, upper, false) && Joined("-" + [c] + s, upper, false)
  {
    assert ([c] + s)[1..] == s;
    assert ("-" + [c] + s)[1..] == [c] + s;
  }

  /** The expression that makes slugs makes nothing else. */
  lemma SlugOfIsSlug(s: string)
    ensures SlugOf(s) == "" || Joined(SlugOf(s), true, true)
  {
    DashedJoins(Upper(s), true, false);
  }

  // ---------- element keys ----------

  lemma {:induction false} JoinedIsDashed(s: string, upper: bool, dash: bool)
    requires Joined(s, upper, dash)
    ensures Dashed(s, upper, dash, true) == (if dash then "-" else "") + s
  {
    if s != "" {
      JoinedIsDashed(s[1..], upper, s[0] == '-');
      assert s == [s[0]] + s[1..];
    }
  }

  lemma {:induction false} LowerJoins(s: string, dash: bool)
    requires Joined(s, true, dash)
    ensures Joined(Lower(s), false, dash) && |Lower(s)| == |s|
  {
    if s != "" {
      LowerJoins(s[1..], s[0] == '-');
      assert Lower(s)[1..] == Lower(s[1..]);
    }
  }

  lemma DashedStep(c: char, s: string, gap: bool, begun: bool)
    ensures Dashed([c] + s, false, gap, begun) ==
            if InWord(c, false) then (if gap && begun then "-" else "") + [c] + Dashed(s, false, false, true)
            else Dashed(s, false, true, begun)
  {
    assert ([c] + s)[1..] == s;
  }

  lemma DashedSe(y: string)
    ensures Dashed("se-" + y, false, false, false) == "se" + Dashed(y, false, true, true)
  {
    DashedStep('-', y, false, true);
    DashedStep('e', ['-'] + y, false, true);
    DashedStep('s', ['e'] + (['-'] + y), false, false);
    assert "se-" + y == ['s'] + (['e'] + (['-'] + y));
  }

  /** A slug shows in its element's token letter by letter. */
  lemma SlugToken(x: Slug)
    ensures Token("SE-" + x) == if x == "" then "se" else "se-" + Lower(x)
  {
    LowerConcat("SE-", x);
    LowerOfSe();
    DashedSe(Lower(x));
    if x != "" {
      LowerJoins(x, true);
      JoinedIsDashed(Lower(x), false, true);
      JoinSe(Lower(x));
    }
  }

  lemma JoinSe(y: string)
    ensures "se" + ("-" + y) == "se-" + y
  {
  }

  lemma LowerOfSe()
    ensures Lower("SE-") == "se-"
  {
    assert "SE-"[1..] == "E-" && "E-"[1..] == "-";
  }

  lemma {:induction false} LowerConcat(a: string, b: string)
    ensures Lower(a + b) == Lower(a) + Lower(b)
  {
    if a == "" {
      assert a + b == b;
    } else {
      assert (a + b)[1..] == a[1..] + b;
      LowerConcat(a[1..], b);
    }
  }

  lemma {:induction false} LowerTells(a: string, b: string, dash: bool, dash': bool)
    requires Joined(a, true, dash) && Joined(b, true, dash') && Lower(a) == Lower(b)
    ensures a == b
  {
    if a != "" && b != "" {
      assert Lower(a)[0] == Lower(b)[0] && Lower(a)[1..] == Lower(a[1..]) && Lower(b)[1..] == Lower(b[1..]);
      LowerTells(a[1..], b[1..], a[0] == '-', b[0] == '-');
      assert a == [a[0]] + a[1..] && b == [b[0]] + b[1..];
    }
  }

  /** Elements of different slugs have different keys. */
  lemma SlugKeysDiffer(x: Slug, y: Slug)
    requires ElementKeyOf("SE-" + x) == ElementKeyOf("SE-" + y)
    ensures x == y
  {
    SlugToken(x);
    SlugToken(y);
    assert ElementKeyOf("SE-" + x)[9..] == Token("SE-" + x) && ElementKeyOf("SE-" + y)[9..] == Token("SE-" + y);
    if x != "" && y != "" {
      assert Token("SE-" + x)[3..] == Lower(x) && Token("SE-" + y)[3..] == Lower(y);
      LowerTells(x, y, true, true);
    }
  }

  lemma {:induction false} LowerTwice(s: string)
    ensures Lower(Lower(s)) == Lower(s)
  {
    if s != "" {
      LowerTwice(s[1..]);
      assert Lower(s)[1..] == Lower(s[1..]);
    }
  }

  /** A code in small letters is another code with the same key. */
  lemma SmallLettersSameKey(x: Slug)
    ensures Lower("SE-" + x) != "SE-" + x && ElementKeyOf(Lower("SE-" + x)) == ElementKeyOf("SE-" + x)
  {
    LowerTwice("SE-" + x);
    assert Lower("SE-" + x)[0] == 's';
  }
}
