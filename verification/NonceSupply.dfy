/** Random generations and UUIDs: strings nobody has drawn before. */
module NonceSupply {

  predicate IsPlain(c: char) {
    '0' <= c <= '9' || 'a' <= c <= 'z' || c == '-'
  }

  /** Nonces need no JSON escape and survive the trimming that decoding applies. */
  predicate IsNonce(s: string) {
    s != "" && forall i | 0 <= i < |s| :: IsPlain(s[i])
  }

  ghost predicate AllShorter(drawn: set<string>, n: nat) {
    forall s | s in drawn :: |s| < n
  }

  lemma {:induction false} LengthBound(drawn: set<string>) returns (n: nat)
    ensures AllShorter(drawn, n)
    decreases |drawn|
  {
    n := 1;
    if drawn != {} {
      var s :| s in drawn;
      assert |drawn - {s}| < |drawn|;
      var rest := LengthBound(drawn - {s});
      n := rest + |s| + 1;
      forall q | q in drawn
        ensures |q| < n
      {
        assert q == s || q in drawn - {s};
      }
    }
  }

  lemma FreshNonceExists(drawn: set<string>)
    ensures exists g: string :: IsNonce(g) && g !in drawn
  {
    var n := LengthBound(drawn);
    var g := seq(n + 1, _ => 'f');
    assert IsNonce(g) && g !in drawn;
  }

  class Supply {
    var drawn: set<string>

    constructor ()
      ensures drawn == {}
    {
      drawn := {};
    }

    method Draw() returns (g: string)
      modifies this
      ensures IsNonce(g) && g !in old(drawn)
      ensures drawn == old(drawn) + {g}
    {
      FreshNonceExists(drawn);
      g :| IsNonce(g) && g !in drawn;
      drawn := drawn + {g};
    }
  }
}
