/**
  Normalisation of raw part-number fields into canonical keys
  (main.go:75-79): the field is upper-cased and every run of characters
  outside [0-9A-Z] is deleted.
 */
module PartKeys {

  /** A character that survives normalisation: an ASCII digit or upper-case letter. */
  predicate IsKeyChar(c: char) {
    ('0' <= c <= '9') || ('A' <= c <= 'Z')
  }

  /** A canonical key: a string made only of key characters. */
  predicate IsCanonical(s: string) {
    forall i :: 0 <= i < |s| ==> IsKeyChar(s[i])
  }

  /** A part-number key: non-empty and made only of key characters. */
  predicate IsKey(k: string) {
    k != [] && IsCanonical(k)
  }

  /** The lower-case ASCII alphabet, and its upper-case counterpart letter by letter. */
  const Lower: string := "abcdefghijklmnopqrstuvwxyz"
  const Upper: string := "ABCDEFGHIJKLMNOPQRSTUVWXYZ"

  /** Upper-casing of one character, restricted to ASCII letters. */
  function UpperAscii(c: char): char {
    if 'a' <= c <= 'z' then (c as int - 32) as char else c
  }

  /** Upper-casing agrees with the letter-by-letter table: the n-th lower-case letter becomes the n-th upper-case one. */
  lemma UpperAsciiLetters(c: char)
    ensures forall n :: 0 <= n < |Lower| && c == Lower[n] ==> UpperAscii(c) == Upper[n]
  {
  }

  /** Every character that is not a lower-case ASCII letter is left alone. */
  lemma UpperAsciiOthers(c: char)
    ensures c !in Lower ==> UpperAscii(c) == c
  {
  }

  /** The result is a key character exactly when the character was one already or was a lower-case letter. */
  lemma UpperAsciiKeyChars(c: char)
    ensures IsKeyChar(UpperAscii(c)) <==> IsKeyChar(c) || c in Lower
  {
  }

  /** The characters that a single raw character contributes to the key. */
  function KeepChar(c: char): string {
    var u := UpperAscii(c);
    if IsKeyChar(u) then [u] else []
  }

  /**
    Upper-case the field, then drop every character outside [0-9A-Z].
    Deleting runs of such characters (as the regular expression does) and
    deleting them one at a time give the same string.
   */
  function Normalize(raw: string): (key: string)
    ensures IsCanonical(key)
    ensures |key| <= |raw|
  {
    if raw == [] then [] else KeepChar(raw[0]) + Normalize(raw[1..])
  }

  /** Upper-casing is idempotent and fixes every key character. */
  lemma UpperAsciiFixesKeyChars(c: char)
    ensures IsKeyChar(c) ==> UpperAscii(c) == c
    ensures UpperAscii(UpperAscii(c)) == UpperAscii(c)
  {
  }

  /** A string that is already canonical is left unchanged. */
  lemma {:induction false} NormalizeCanonical(s: string)
    requires IsCanonical(s)
    ensures Normalize(s) == s
  {
    if s != [] {
      assert IsKeyChar(s[0]);
      assert IsCanonical(s[1..]) by {
        forall i | 0 <= i < |s[1..]| ensures IsKeyChar(s[1..][i]) {
          assert s[1..][i] == s[i + 1];
        }
      }
      NormalizeCanonical(s[1..]);
      assert s == [s[0]] + s[1..];
    }
  }

  /** Normalising a normalised key changes nothing. */
  lemma NormalizeIdempotent(raw: string)
    ensures Normalize(Normalize(raw)) == Normalize(raw)
  {
    NormalizeCanonical(Normalize(raw));
  }

  /** Normalisation works character by character, so it distributes over concatenation. */
  lemma {:induction false} NormalizeConcat(a: string, b: string)
    ensures Normalize(a + b) == Normalize(a) + Normalize(b)
  {
    if a == [] {
      assert a + b == b;
    } else {
      assert (a + b)[0] == a[0];
      assert (a + b)[1..] == a[1..] + b;
      NormalizeConcat(a[1..], b);
    }
  }

  /** The key is empty exactly when no character of the field upper-cases to a key character. */
  lemma {:induction false} NormalizeEmpty(raw: string)
    ensures Normalize(raw) == [] <==> forall i :: 0 <= i < |raw| ==> !IsKeyChar(UpperAscii(raw[i]))
  {
    if raw != [] {
      NormalizeEmpty(raw[1..]);
      assert forall i :: 0 < i < |raw| ==> raw[1..][i - 1] == raw[i];
    }
  }
}
