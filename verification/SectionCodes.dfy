/**
 Fresh codes for SASB topic sections: initials, then a slug, then the slug with the first free number.
 The search for that number ends because the set of used codes is finite and numbers print differently.
 */
module SectionCodes {
  import opened Prelude
  import Decimal

  // ---------- candidates ----------

  predicate IsWordChar(c: char) {
    'a' <= c <= 'z' || 'A' <= c <= 'Z' || Decimal.IsDigit(c)
  }

  function UpperChar(c: char): char {
    if 'a' <= c <= 'z' then (c as int - 32) as char else c
  }

  function LowerChar(c: char): char {
    if 'A' <= c <= 'Z' then (c as int + 32) as char else c
  }

  function Upper(s: string): (t: string)
    ensures |t| == |s|
  {
    seq(|s|, i requires 0 <= i < |s| => UpperChar(s[i]))
  }

  function Lower(s: string): (t: string)
    ensures |t| == |s|
  {
    seq(|s|, i requires 0 <= i < |s| => LowerChar(s[i]))
  }

  /** The maximal runs of letters and digits, in order; `run` is the one being read. */
  function Words(title: string, run: string): (words: seq<string>)
    ensures forall i :: 0 <= i < |words| ==> words[i] != ""
    decreases |title|
  {
    if title == "" then if run == "" then [] else [run]
    else if IsWordChar(title[0]) then Words(title[1..], run + [title[0]])
    else (if run == "" then [] else [run]) + Words(title[1..], "")
  }

  const STOPWORDS := ["and", "of", "the"]

  function Initials(words: seq<string>): string
    requires forall i :: 0 <= i < |words| ==> words[i] != ""
  {
    if words == [] then ""
    else (if Lower(words[0]) in STOPWORDS then "" else [UpperChar(words[0][0])]) + Initials(words[1..])
  }

  function Joined(words: seq<string>): string {
    if words == [] then "" else if |words| == 1 then words[0] else words[0] + "-" + Joined(words[1..])
  }

  function Cut(s: string, n: nat): string {
    var t := if |s| <= n then s else s[..n];
    if t == "" then "TOPIC" else t
  }

  function InitialsCode(industry: string, title: string): string {
    industry + "-" + Cut(Initials(Words(title, "")), 6)
  }

  function SlugCode(industry: string, title: string): string {
    industry + "-" + Cut(Upper(Joined(Words(title, ""))), 24)
  }

  function Numbered(base: string, n: nat): string {
    base + "-" + Decimal.OfNat(n)
  }

  // ---------- the first free number ----------

  lemma NumberedInjective(base: string, m: nat, n: nat)
    requires Numbered(base, m) == Numbered(base, n)
    ensures m == n
  {
    assert Numbered(base, m)[|base| + 1..] == Decimal.OfNat(m);
    assert Numbered(base, n)[|base| + 1..] == Decimal.OfNat(n);
    Decimal.NatInjective(m, n);
  }

  /** If the base and its numbers from 2 up to `n` are all used, there are that many used codes. */
  lemma UsedNumbersFit(base: string, n: nat, used: set<string>)
    requires n >= 2 && base in used && forall k :: 2 <= k < n ==> Numbered(base, k) in used
    ensures n - 1 <= |used|
  {
    var taken := seq(n - 1, i requires 0 <= i < n - 1 => if i == 0 then base else Numbered(base, i + 1));
    forall i, j | 0 <= i < j < |taken| ensures taken[i] != taken[j] {
      if i > 0 && Numbered(base, i + 1) == Numbered(base, j + 1) {
        NumberedInjective(base, i + 1, j + 1);
      }
    }
    DistinctFits(taken, used);
  }

  /** `n` is the first number from 2 on that is free behind the base. */
  ghost predicate FirstFree(base: string, n: nat, used: set<string>) {
    n >= 2 && Numbered(base, n) !in used && forall k :: 2 <= k < n ==> Numbered(base, k) in used
  }

  ghost predicate IsChoice(industry: string, title: string, used: set<string>, code: string) {
    var initials, slug := InitialsCode(industry, title), SlugCode(industry, title);
    if initials !in used then code == initials
    else if slug !in used then code == slug
    else exists n :: FirstFree(slug, n, used) && code == Numbered(slug, n)
  }

  /** At most one code is the right choice. */
  lemma ChoiceUnique(industry: string, title: string, used: set<string>, a: string, b: string)
    requires IsChoice(industry, title, used, a) && IsChoice(industry, title, used, b)
    ensures a == b && a !in used
  {
    var slug := SlugCode(industry, title);
    if InitialsCode(industry, title) in used && slug in used {
      var m: nat :| FirstFree(slug, m, used) && a == Numbered(slug, m);
      var n: nat :| FirstFree(slug, n, used) && b == Numbered(slug, n);
      FirstFreeUnique(slug, m, n, used);
    }
  }

  lemma FirstFreeUnique(base: string, m: nat, n: nat, used: set<string>)
    requires FirstFree(base, m, used) && FirstFree(base, n, used)
    ensures m == n
  {
  }

  /** Each code is the right choice given those used before and the earlier codes. */
  ghost predicate AllChosen(industry: string, titles: seq<string>, used: set<string>, codes: seq<string>) {
    && |codes| <= |titles| && Distinct(codes) && Elements(codes) !! used
    && forall i :: 0 <= i < |codes| ==> IsChoice(industry, titles[i], used + Elements(codes[..i]), codes[i])
  }

  lemma OneMoreChosen(industry: string, titles: seq<string>, used: set<string>, codes: seq<string>, code: string)
    requires AllChosen(industry, titles, used, codes) && |codes| < |titles|
    requires IsChoice(industry, titles[|codes|], used + Elements(codes), code) && code !in used + Elements(codes)
    ensures AllChosen(industry, titles, used, codes + [code])
    ensures Elements(codes + [code]) == Elements(codes) + {code}
  {
    var longer := codes + [code];
    assert code !in codes;
    assert longer[..|codes|] == codes;
    forall i | 0 <= i < |longer| ensures IsChoice(industry, titles[i], used + Elements(longer[..i]), longer[i]) {
      assert i < |codes| ==> longer[..i] == codes[..i];
    }
  }

  /** The set of codes handed out so far, which every call adds to. */
  class UsedCodes {
    var used: set<string>

    constructor ()
      ensures used == {}
    {
      used := {};
    }

    method TopicSectionCode(industry: string, title: string) returns (code: string, ghost increments: nat)
      modifies this
      ensures IsChoice(industry, title, old(used), code)
      ensures code !in old(used) && used == old(used) + {code}
      ensures increments < |used|
    {
      increments := 0;
      code := InitialsCode(industry, title);
      if code !in used {
        used := used + {code};
        return;
      }
      var slug := SlugCode(industry, title);
      code := slug;
      if code !in used {
        used := used + {code};
        return;
      }
      var counter := 2;
      while Numbered(slug, counter) in used
        invariant used == old(used) && counter == increments + 2
        invariant forall k :: 2 <= k < counter ==> Numbered(slug, k) in used
        invariant counter - 1 <= |used|
        decreases |used| - counter
      {
        UsedNumbersFit(slug, counter + 1, used);
        counter, increments := counter + 1, increments + 1;
      }
      code := Numbered(slug, counter);
      assert FirstFree(slug, counter, used);
      used := used + {code};
    }

    /** One code per title. */
    method CodesFor(industry: string, titles: seq<string>) returns (codes: seq<string>)
      modifies this
      ensures |codes| == |titles| && AllChosen(industry, titles, old(used), codes)
      ensures used == old(used) + Elements(codes)
    {
      codes := [];
      for i := 0 to |titles|
        invariant |codes| == i && AllChosen(industry, titles, old(used), codes)
        invariant used == old(used) + Elements(codes)
      {
        var code, increments := TopicSectionCode(industry, titles[i]);
        OneMoreChosen(industry, titles, old(used), codes, code);
        codes := codes + [code];
      }
    }
  }

  ghost predicate IsWord(s: string) {
    s != "" && forall i :: 0 <= i < |s| ==> IsWordChar(s[i])
  }

  lemma {:induction false} WordRead(run: string, w: string, rest: string)
    requires (forall i :: 0 <= i < |w| ==> IsWordChar(w[i])) && (rest == "" || !IsWordChar(rest[0])) && run + w != ""
    ensures Words(w + rest, run) == [run + w] + Words(if rest == "" then "" else rest[1..], "")
    decreases |w|
  {
    if w == "" {
      assert w + rest == rest && run + w == run;
    } else {
      assert (w + rest)[1..] == w[1..] + rest;
      assert (run + [w[0]]) + w[1..] == run + w;
      WordRead(run + [w[0]], w[1..], rest);
    }
  }

  /** A title is read word by word: a run of letters and digits, then whatever separates it from the next. */
  lemma WordsMean(w: string, separator: char, rest: string)
    requires IsWord(w) && !IsWordChar(separator)
    ensures Words(w, "") == [w]
    ensures Words(w + [separator] + rest, "") == [w] + Words(rest, "")
    ensures Words([separator] + rest, "") == Words(rest, "")
  {
    WordRead("", w, "");
    assert w + "" == w && "" + w == w && Words("", "") == [];
    assert w + [separator] + rest == w + ([separator] + rest) && ([separator] + rest)[1..] == rest;
    WordRead("", w, [separator] + rest);
  }

  /** The topic "Air Quality" of the industry EM: initials first, then the slug, then numbers from 2 on. */
  lemma AirQuality(industry: string, title: string, used: set<string>, code: string)
    requires industry == "EM" && title == "Air Quality" && IsChoice(industry, title, used, code)
    ensures "EM-AQ" !in used ==> code == "EM-AQ"
    ensures "EM-AQ" in used && "EM-AIR-QUALITY" !in used ==> code == "EM-AIR-QUALITY"
    ensures "EM-AQ" in used && "EM-AIR-QUALITY" in used ==>
              exists n: nat :: n >= 2 && code == "EM-AIR-QUALITY-" + Decimal.OfNat(n) &&
                forall k: nat :: 2 <= k < n ==> "EM-AIR-QUALITY-" + Decimal.OfNat(k) in used
  {
    AirQualityCodes(industry, title);
    if "EM-AQ" in used && "EM-AIR-QUALITY" in used {
      var n: nat :| FirstFree("EM-AIR-QUALITY", n, used) && code == Numbered("EM-AIR-QUALITY", n);
      assert "EM-AIR-QUALITY" + "-" == "EM-AIR-QUALITY-";
      forall k: nat | 2 <= k < n ensures "EM-AIR-QUALITY-" + Decimal.OfNat(k) in used {
        assert Numbered("EM-AIR-QUALITY", k) in used;
      }
    }
  }

  lemma AirQualityCodes(industry: string, title: string)
    requires industry == "EM" && title == "Air Quality"
    ensures InitialsCode(industry, title) == "EM-AQ" && SlugCode(industry, title) == "EM-AIR-QUALITY"
  {
    var words := Words(title, "");
    assert title == "Air" + [' '] + "Quality";
    TwoWords(title, "Air", "Quality");
    AirInitials(words);
    AirSlug(words);
    assert Cut("AQ", 6) == "AQ" && "EM" + "-" + "AQ" == "EM-AQ";
    assert Cut("AIR-QUALITY", 24) == "AIR-QUALITY" && "EM" + "-" + "AIR-QUALITY" == "EM-AIR-QUALITY";
  }

  lemma TwoWords(title: string, first: string, second: string)
    requires IsWord(first) && IsWord(second) && title == first + [' '] + second
    ensures Words(title, "") == [first, second]
  {
    WordsMean(first, ' ', second);
    WordsMean(second, ' ', "");
  }

  lemma AirInitials(words: seq<string>)
    requires words == ["Air", "Quality"]
    ensures Initials(words) == "AQ"
  {
    assert Lower("Air")[0] == 'a' && Lower("Air")[1] == 'i' && Lower("Quality")[0] == 'q';
    assert words[1..] == ["Quality"] && words[1..][1..] == [];
    assert Initials(words[1..]) == "Q";
  }

  lemma AirSlug(words: seq<string>)
    requires words == ["Air", "Quality"]
    ensures Upper(Joined(words)) == "AIR-QUALITY"
  {
    assert words[1..] == ["Quality"];
    assert Joined(words[1..]) == "Quality";
    assert Joined(words) == "Air" + "-" + "Quality" == "Air-Quality";
    assert Upper("Air-Quality") == "AIR-QUALITY";
  }
}
