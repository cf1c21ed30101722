/**
  What the proof-of-work search promises: it stops at the first nonce, at or
  after the one it starts from, whose digest starts with the prefix.
 */
module ProofOfWork {
  import opened Blocks

  /** The digest of `fields` with its nonce set to `n` starts with `prefix`. */
  predicate Fits<T>(h: Hasher<T>, fields: Preimage<T>, prefix: string, n: int) {
    StartsWith(h(fields.(nonce := n)), prefix)
  }

  /** `n` is the first nonce at or after `fields.nonce` that fits. */
  predicate FirstFit<T>(h: Hasher<T>, fields: Preimage<T>, prefix: string, n: int) {
    && fields.nonce <= n
    && Fits(h, fields, prefix, n)
    && forall k :: fields.nonce <= k < n ==> !Fits(h, fields, prefix, k)
  }

  /** The search is deterministic: at most one nonce is the first fit. */
  lemma FirstFitUnique<T>(h: Hasher<T>, fields: Preimage<T>, prefix: string, n: int, m: int)
    requires FirstFit(h, fields, prefix, n) && FirstFit(h, fields, prefix, m)
    ensures n == m
  {
  }

  /**
    A first fit exists exactly when some nonce at or after the start fits:
    that is the condition under which the search stops.
   */
  lemma {:induction false} FirstFitExists<T>(h: Hasher<T>, fields: Preimage<T>, prefix: string, target: int)
    requires fields.nonce <= target && Fits(h, fields, prefix, target)
    ensures exists n :: n <= target && FirstFit(h, fields, prefix, n)
    decreases target - fields.nonce
  {
    if Fits(h, fields, prefix, fields.nonce) {
      assert FirstFit(h, fields, prefix, fields.nonce);
    } else {
      var next := fields.(nonce := fields.nonce + 1);
      assert next.(nonce := target) == fields.(nonce := target);
      FirstFitExists(h, next, prefix, target);
      var n :| n <= target && FirstFit(h, next, prefix, n);
      forall k | fields.nonce <= k < n
        ensures !Fits(h, fields, prefix, k)
      {
        if k > fields.nonce {
          assert next.(nonce := k) == fields.(nonce := k);
          assert !Fits(h, next, prefix, k);
        }
      }
      assert next.(nonce := n) == fields.(nonce := n);
      assert FirstFit(h, fields, prefix, n);
    }
  }

  /**
    With difficulty zero or below the prefix is empty, so the first fit is
    the starting nonce itself and no other.
   */
  lemma ZeroDifficultyFirstFit<T>(h: Hasher<T>, fields: Preimage<T>, difficulty: int, n: int)
    requires difficulty <= 0
    ensures FirstFit(h, fields, Zeros(difficulty), n) <==> n == fields.nonce
  {
    assert Fits(h, fields, Zeros(difficulty), fields.nonce);
  }

  /** A mined digest has at least `difficulty` leading '0' characters. */
  lemma MinedDigestLeadingZeros<T>(h: Hasher<T>, fields: Preimage<T>, difficulty: int, n: int)
    requires FirstFit(h, fields, Zeros(difficulty), n)
    ensures difficulty <= |h(fields.(nonce := n))|
    ensures forall i :: 0 <= i < difficulty ==> h(fields.(nonce := n))[i] == '0'
  {
  }

  /**
    A hex SHA-256 digest has 64 characters, so with a difficulty above 64 no
    nonce fits and the search never stops.
   */
  lemma OverlongPrefixNeverFits<T>(h: Hasher<T>, fields: Preimage<T>, difficulty: int)
    requires forall p :: |h(p)| == 64
    requires difficulty > 64
    ensures forall n :: !Fits(h, fields, Zeros(difficulty), n)
  {
  }
}
