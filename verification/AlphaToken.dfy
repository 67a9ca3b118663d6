/** Letter tokens a, b, ..., z, aa, ab, ...: bijective base 26. */
module AlphaToken {

  function Letter(d: nat): (c: char)
    requires d < 26
    ensures 'a' <= c <= 'z'
  {
    (97 + d) as char
  }

  function LetterValue(c: char): (d: nat)
    requires 'a' <= c <= 'z'
    ensures d < 26 && Letter(d) == c
  {
    c as int - 97
  }

  predicate IsWord(s: string) {
    forall i :: 0 <= i < |s| ==> 'a' <= s[i] <= 'z'
  }

  /** The number a word stands for, digits running from 1 to 26. */
  function Decode(word: string): nat
    requires IsWord(word)
  {
    if word == "" then 0 else 26 * Decode(word[..|word| - 1]) + LetterValue(word[|word| - 1]) + 1
  }

  /** The token of a number is a word that stands for it; of zero or less it is empty. */
  method Token(index: int) returns (token: string)
    ensures IsWord(token) && Decode(token) == if index < 0 then 0 else index
    ensures token == if index < 0 then "" else Encode(index)
  {
    token := "";
    var current := index;
    while current > 0
      invariant IsWord(token)
      invariant index < 0 ==> token == ""
      invariant index >= 0 ==> current >= 0 && current * Power(|token|) + Decode(token) == index
    {
      current := current - 1;
      ghost var rest := token;
      token := [Letter(current % 26)] + token;
      PrependDigit(Letter(current % 26), rest);
      assert LetterValue(Letter(current % 26)) == current % 26;
      Carry(current / 26, current % 26, Power(|rest|));
      current := current / 26;
    }
    assert Decode("") == 0;
    if index >= 0 {
      DecodeEncode(index);
      DecodeInjective(token, Encode(index));
    }
  }

  ghost function Power(k: nat): (p: nat)
    ensures p > 0
  {
    if k == 0 then 1 else 26 * Power(k - 1)
  }

  lemma Carry(q: nat, d: nat, p: nat)
    ensures (26 * q + d + 1) * p == q * (26 * p) + (d + 1) * p
  {
  }

  lemma {:induction false} PrependDigit(c: char, word: string)
    requires 'a' <= c <= 'z' && IsWord(word)
    ensures Decode([c] + word) == (LetterValue(c) + 1) * Power(|word|) + Decode(word)
  {
    var longer := [c] + word;
    if word == "" {
      assert longer[..0] == "";
      assert Decode(longer[..0]) == 0;
    } else {
      PrependDigit(c, word[..|word| - 1]);
      assert longer[..|longer| - 1] == [c] + word[..|word| - 1];
      Scale(LetterValue(c) + 1, Power(|word| - 1));
    }
  }

  lemma Scale(a: nat, p: nat)
    ensures 26 * (a * p) == a * (26 * p)
  {
  }

  // ---------- every word is the token of exactly one number ----------

  /** The token as a function. */
  function Encode(n: nat): (word: string)
    ensures IsWord(word)
    ensures word == "" <==> n == 0
  {
    if n == 0 then "" else Encode((n - 1) / 26) + [Letter((n - 1) % 26)]
  }

  lemma {:induction false} DecodeEncode(n: nat)
    ensures Decode(Encode(n)) == n
  {
    if n > 0 {
      DecodeEncode((n - 1) / 26);
      var word := Encode(n);
      assert word[..|word| - 1] == Encode((n - 1) / 26);
      assert LetterValue(Letter((n - 1) % 26)) == (n - 1) % 26;
    }
  }

  /** Different words stand for different numbers. */
  lemma {:induction false} DecodeInjective(a: string, b: string)
    requires IsWord(a) && IsWord(b) && Decode(a) == Decode(b)
    ensures a == b
  {
    if a != "" && b != "" {
      var i, j := |a| - 1, |b| - 1;
      DecodeInjective(a[..i], b[..j]);
      assert a == a[..i] + [a[i]] && b == b[..j] + [b[j]];
    }
  }

  /** Every non-empty word is the token of exactly one number, and that is at least 1. */
  lemma TokenOfExactlyOne(word: string, n: nat)
    requires IsWord(word) && word != ""
    ensures Encode(n) == word <==> n == Decode(word)
    ensures Decode(word) >= 1
  {
    DecodeEncode(n);
    if n == Decode(word) {
      DecodeInjective(Encode(n), word);
    }
  }

  // ---------- order ----------

  /** Shorter first, and at equal length alphabetical. */
  predicate Before(a: string, b: string) {
    || |a| < |b|
    || (|a| == |b| && exists k :: 0 <= k < |a| && a[..k] == b[..k] && a[k] < b[k])
  }

  /** Word order is number order. */
  lemma {:induction false} BeforeIsLess(a: string, b: string)
    requires IsWord(a) && IsWord(b) && Before(a, b)
    ensures Decode(a) < Decode(b)
  {
    var i, j := |a| - 1, |b| - 1;
    if a != "" {
      if |a| < |b| {
        BeforeIsLess(a[..i], b[..j]);
      } else {
        var k :| 0 <= k < |a| && a[..k] == b[..k] && a[k] < b[k];
        if k < i {
          FirstDifference(a[..i], b[..i], k, a, b);
          BeforeIsLess(a[..i], b[..i]);
        }
      }
    }
  }

  lemma FirstDifference(front: string, front': string, k: nat, a: string, b: string)
    requires |a| == |b| && k < |a| - 1 && front == a[..|a| - 1] && front' == b[..|b| - 1]
    requires a[..k] == b[..k] && a[k] < b[k]
    ensures Before(front, front')
  {
    assert front[..k] == a[..k] && front'[..k] == b[..k];
  }

  lemma {:induction false} Comparable(a: string, b: string)
    ensures a == b || Before(a, b) || Before(b, a)
  {
    if |a| == |b| && a != "" {
      var i := |a| - 1;
      Comparable(a[..i], b[..i]);
      if a[..i] != b[..i] {
        FrontDecides(a, b);
        FrontDecides(b, a);
      } else if a[i] == b[i] {
        assert a == a[..i] + [a[i]] && b == b[..i] + [b[i]];
      }
    }
  }

  lemma FrontDecides(a: string, b: string)
    requires |a| == |b| && a != ""
    ensures Before(a[..|a| - 1], b[..|b| - 1]) ==> Before(a, b)
  {
    var i := |a| - 1;
    if Before(a[..i], b[..i]) {
      var k :| 0 <= k < i && a[..i][..k] == b[..i][..k] && a[..i][k] < b[..i][k];
      assert a[..k] == a[..i][..k] && b[..k] == b[..i][..k];
    }
  }

  /** Tokens are ordered as their numbers are. */
  lemma TokenOrder(n: nat, m: nat)
    ensures n < m <==> Before(Encode(n), Encode(m))
  {
    DecodeEncode(n);
    DecodeEncode(m);
    Comparable(Encode(n), Encode(m));
    if Before(Encode(n), Encode(m)) {
      BeforeIsLess(Encode(n), Encode(m));
    }
    if Before(Encode(m), Encode(n)) {
      BeforeIsLess(Encode(m), Encode(n));
    }
  }
}
