/** The input of the digests in fs/hash.c: bytes, the 32-bit words read from them in little-endian order,
    and inputs that differ in one place. */
module Inputs {

  function Pack(a: bv8, b: bv8, c: bv8, d: bv8): bv32 {
    (a as bv32) | ((b as bv32) << 8) | ((c as bv32) << 16) | ((d as bv32) << 24)
  }

  lemma PackingIsInjective(a: bv8, b: bv8, c: bv8, d: bv8, a': bv8, b': bv8, c': bv8, d': bv8)
    ensures Pack(a, b, c, d) == Pack(a', b', c', d') <==> a == a' && b == b' && c == c' && d == d'
  {
  }

  /** The little-endian 32-bit word at byte p. */
  function Word(s: seq<bv8>, p: nat): bv32
    requires p + 4 <= |s|
  {
    Pack(s[p], s[p + 1], s[p + 2], s[p + 3])
  }

  ghost predicate Agree(s: seq<bv8>, t: seq<bv8>, lo: nat, hi: nat) {
    |s| == |t| && hi <= |s| && forall k | lo <= k < hi :: s[k] == t[k]
  }

  /** s and t differ, but only inside [lo, hi). */
  ghost predicate DifferOnlyIn(s: seq<bv8>, t: seq<bv8>, lo: nat, hi: nat) {
    s != t && lo <= hi && Agree(s, t, 0, lo) && Agree(s, t, hi, |s|)
  }

  /** Two words are equal exactly when their four bytes are. */
  lemma WordsEqual(s: seq<bv8>, t: seq<bv8>, p: nat)
    requires p + 4 <= |s| == |t|
    ensures Word(s, p) == Word(t, p) <==> Agree(s, t, p, p + 4)
  {
    hide Pack;
    PackingIsInjective(s[p], s[p + 1], s[p + 2], s[p + 3], t[p], t[p + 1], t[p + 2], t[p + 3]);
    if Word(s, p) == Word(t, p) {
      forall k | p <= k < p + 4
        ensures s[k] == t[k]
      {
        assert k == p || k == p + 1 || k == p + 2 || k == p + 3;
      }
    }
  }

  /** A difference confined to [lo, hi) is a disagreement there. */
  lemma Disagree(s: seq<bv8>, t: seq<bv8>, lo: nat, hi: nat)
    requires hi <= |s| && DifferOnlyIn(s, t, lo, hi)
    ensures |s| == |t| && !Agree(s, t, lo, hi)
  {
    var k :| 0 <= k < |s| && s[k] != t[k];
  }
}
