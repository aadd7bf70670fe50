/** Equal-length padding of the two plaintexts before encryption
    (backend/normalize/normalize.go): the shorter one is padded with spaces
    to the length of the longer one. */
module Normalize {
  import opened Base

  /** Both outputs have length max(|a|, |b|), each starts with its input,
      and every appended character is a space; equal-length inputs are
      returned unchanged, and so is the longer input. */
  function Normalize(a: string, b: string): (r: (string, string))
    ensures |r.0| == Max(|a|, |b|) && |r.1| == Max(|a|, |b|)
    ensures IsPrefix(a, r.0) && IsPrefix(b, r.1)
    ensures forall i :: |a| <= i < |r.0| ==> r.0[i] == ' '
    ensures forall i :: |b| <= i < |r.1| ==> r.1[i] == ' '
    ensures |a| == |b| ==> r == (a, b)
    ensures |a| >= |b| ==> r.0 == a
    ensures |b| >= |a| ==> r.1 == b
  {
    if |a| == |b| then (a, b)
    else
      var targetLen := if |a| > |b| then |a| else |b|;
      var padA := targetLen - |a|;
      var padB := targetLen - |b|;
      var a' := if padA > 0 then a + Repeat(' ', padA) else a;
      var b' := if padB > 0 then b + Repeat(' ', padB) else b;
      (a', b')
  }

  /** Normalisation is idempotent: its outputs are a fixed point. */
  lemma NormalizeIdempotent(a: string, b: string)
    ensures Normalize(Normalize(a, b).0, Normalize(a, b).1) == Normalize(a, b)
  {
  }
}
