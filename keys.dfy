/**
 * Key sanitisation shared by `expand` and `search` (trie.js:104 and
 * trie.js:166): `value.replace(/[^A-Za-z]+/g, '').toLowerCase()`.
 * Every character outside A-Z and a-z is dropped and the ASCII letters
 * that remain are lower-cased, in order.
 */
module Keys {

  predicate IsAsciiLetter(c: char) {
    'A' <= c <= 'Z' || 'a' <= c <= 'z'
  }

  /** `toLowerCase` on an ASCII letter. */
  function ToLower(c: char): (d: char)
    requires IsAsciiLetter(c)
    ensures 'a' <= d <= 'z'
    ensures 'a' <= c <= 'z' ==> d == c
  {
    if 'A' <= c <= 'Z' then (c as int - 'A' as int + 'a' as int) as char else c
  }

  /** A key is what sanitisation produces: lower-case ASCII letters only. */
  predicate IsKey(s: string) {
    forall i :: 0 <= i < |s| ==> 'a' <= s[i] <= 'z'
  }

  predicate HasNoLetter(s: string) {
    forall i :: 0 <= i < |s| ==> !IsAsciiLetter(s[i])
  }

  /** Sanitisation, one character at a time: the last character of `s`
      contributes its lower-case form when it is an ASCII letter. */
  function Sanitize(s: string): (k: string)
    ensures IsKey(k)
    ensures |k| <= |s|
  {
    if |s| == 0 then ""
    else
      var c := s[|s| - 1];
      Sanitize(s[..|s| - 1]) + (if IsAsciiLetter(c) then [ToLower(c)] else "")
  }

  /** Sanitisation distributes over concatenation: it works character by character. */
  lemma {:induction false} SanitizeConcat(a: string, b: string)
    ensures Sanitize(a + b) == Sanitize(a) + Sanitize(b)
    decreases |b|
  {
    if |b| == 0 {
      assert a + b == a;
    } else {
      assert (a + b)[..|a + b| - 1] == a + b[..|b| - 1];
      SanitizeConcat(a, b[..|b| - 1]);
    }
  }

  /** A key sanitises to itself. */
  lemma {:induction false} SanitizeKey(k: string)
    requires IsKey(k)
    ensures Sanitize(k) == k
  {
    if |k| > 0 {
      SanitizeKey(k[..|k| - 1]);
    }
  }

  /** Sanitising twice gives the same key as sanitising once. */
  lemma SanitizeIdempotent(s: string)
    ensures Sanitize(Sanitize(s)) == Sanitize(s)
  {
    SanitizeKey(Sanitize(s));
  }

  /** The key is empty exactly when the input holds no ASCII letter. */
  lemma {:induction false} SanitizeEmpty(s: string)
    ensures Sanitize(s) == "" <==> HasNoLetter(s)
  {
    if |s| > 0 {
      SanitizeEmpty(s[..|s| - 1]);
      assert HasNoLetter(s) <==> HasNoLetter(s[..|s| - 1]) && !IsAsciiLetter(s[|s| - 1]);
    }
  }

  /** Sanitising one more character appends what that character becomes
      (one step of the definition, used on the literal keys below). */
  lemma SanitizeSnoc(s: string, c: char)
    ensures Sanitize(s + [c]) == Sanitize(s) + (if IsAsciiLetter(c) then [ToLower(c)] else "")
  {
    assert (s + [c])[..|s|] == s;
  }

  /** The key of the query in the usage comment at the top of trie.js
      (trie.js:13). */
  lemma QueryKey()
    ensures Sanitize("Test") == "test"
  {
    assert "" + ['T'] == "T";
    assert ToLower('T') == 't';
    SanitizeSnoc("", 'T');
    assert "T" + ['e'] == "Te";
    SanitizeSnoc("T", 'e');
    assert "Te" + ['s'] == "Tes";
    SanitizeSnoc("Te", 's');
    assert "Tes" + ['t'] == "Test";
    SanitizeSnoc("Tes", 't');
  }

  /** The key of the value in the usage comment (trie.js:12). */
  lemma ValueKey()
    ensures Sanitize("Testing") == "testing"
  {
    QueryKey();
    assert "Test" + ['i'] == "Testi";
    SanitizeSnoc("Test", 'i');
    assert "Testi" + ['n'] == "Testin";
    SanitizeSnoc("Testi", 'n');
    assert "Testin" + ['g'] == "Testing";
    SanitizeSnoc("Testin", 'g');
  }
}
