/** A value that may be missing. */
module Options {
  datatype Option<+T> = None | Some(value: T)
}

/** Character classes that the platform accepts in identifiers and nonces, and ASCII lower case. */
module Identifiers {

  predicate SafeChar(c: char) {
    'a' <= c <= 'z' || 'A' <= c <= 'Z' || '0' <= c <= '9' || c == '.' || c == '_' || c == '-'
  }

  /** `is_safe_identifier` with its default bounds. */
  predicate SafeIdentifier(s: string) {
    1 <= |s| <= 128 && forall i :: 0 <= i < |s| ==> SafeChar(s[i])
  }

  predicate HexChar(c: char) {
    '0' <= c <= '9' || 'a' <= c <= 'f' || 'A' <= c <= 'F'
  }

  predicate HexString(s: string, lo: nat, hi: nat) {
    lo <= |s| <= hi && forall i :: 0 <= i < |s| ==> HexChar(s[i])
  }

  function LowerChar(c: char): char {
    if 'A' <= c <= 'Z' then 'a' + (c - 'A') else c
  }

  function Lower(s: string): (r: string)
    ensures |r| == |s|
  {
    seq(|s|, i requires 0 <= i < |s| => LowerChar(s[i]))
  }

  /** The characters by their code points. */
  lemma {:induction false} CharacterCodes(c: char)
    ensures var n := c as int;
            && (SafeChar(c) <==> 48 <= n <= 57 || 65 <= n <= 90 || 97 <= n <= 122 || n == 45 || n == 46 || n == 95)
            && (HexChar(c) <==> 48 <= n <= 57 || 65 <= n <= 70 || 97 <= n <= 102)
            && LowerChar(c) as int == if 65 <= n <= 90 then n + 32 else n
  {
  }

  /** Identifiers have 1 to 128 characters. */
  lemma {:induction false} IdentifierLengths(n: nat)
    ensures SafeIdentifier(seq(n, _ => 'a')) <==> 1 <= n <= 128
  {
  }
}
