/**
 * C strings. A NUL-terminated `char` buffer is modelled by the characters
 * that come before its terminator, so `strcpy` is assignment and
 * `strcmp(a, b) == 0` is `a == b`.
 */
module CStrings {
  import opened Common

  const NUL: char := '\0'

  /** The part of `s` that `strncmp(s, _, n)` can look at. */
  function Take(s: seq<char>, n: nat): seq<char>
  {
    s[..Min(n, |s|)]
  }

  /**
   * `strncmp(a, b, n) == 0`: the strings agree on their first `n` characters,
   * or up to a terminator both reach at the same place.
   */
  predicate StrNEqual(a: seq<char>, b: seq<char>, n: nat)
  {
    Take(a, n) == Take(b, n)
  }

  /**
   * Comparing with a literal of exactly `n` characters, as every call in the
   * sources does (`strncmp(resnam, "GLU", 3)`), tests that `s` starts with it.
   */
  lemma StrNEqualLiteral(s: seq<char>, lit: seq<char>)
    ensures StrNEqual(s, lit, |lit|) <==> |lit| <= |s| && s[..|lit|] == lit
  {
    if StrNEqual(s, lit, |lit|) {
      assert Take(lit, |lit|) == lit;
      assert |Take(s, |lit|)| == |lit|;
    }
  }

  /** Strings that differ at a place before `n` in both are told apart by `strncmp(a, b, n)`. */
  lemma StrNDiffer(a: seq<char>, b: seq<char>, n: nat, k: nat)
    requires k < n && k < |a| && k < |b| && a[k] != b[k]
    ensures !StrNEqual(a, b, n)
  {
    assert Take(a, n)[k] == a[k] && Take(b, n)[k] == b[k];
  }

  /** `strncmp(a, b, n) == 0` is symmetric. */
  lemma StrNEqualSymmetric(a: seq<char>, b: seq<char>, n: nat)
    ensures StrNEqual(a, b, n) == StrNEqual(b, a, n)
  {
  }
}
