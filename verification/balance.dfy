/**
 * The ordering `SaveCandidates` writes: the shuffled undetermined list, the
 * shuffled concatenation of positives and negatives (inference), or the
 * class-balanced interleave (training), where the shorter class is cycled
 * through again, reshuffled each time it runs out.
 *
 * `random.shuffle` is modelled as a function of the list and of the index
 * of the call in the run (`shuffle(list, k)` is what the k-th call leaves in
 * the list); the only thing assumed of it is that it permutes.
 */
module Balance {
  import opened Wrappers
  import opened Candidates

  type Shuffler = (seq<Candidate>, nat) -> seq<Candidate>

  /** Every call of the shuffler returns a permutation of its argument. */
  ghost predicate Permutes(shuffle: Shuffler)
  {
    forall s, k :: multiset(shuffle(s, k)) == multiset(s)
  }

  datatype SaveError = IndexError   // a list is empty while the other is not

  /** k copies of m. */
  function Times<T>(m: multiset<T>, k: nat): multiset<T>
  {
    if k == 0 then multiset{} else Times(m, k - 1) + m
  }

  lemma {:induction false} TimesSize<T>(m: multiset<T>, k: nat)
    ensures |Times(m, k)| == k * |m|
  {
    if k > 0 {
      TimesSize(m, k - 1);
      assert |Times(m, k)| == (k - 1) * |m| + |m|;
    }
  }

  lemma {:induction false} TimesCount<T>(m: multiset<T>, k: nat, x: T)
    ensures Times(m, k)[x] == k * m[x]
  {
    if k > 0 {
      TimesCount(m, k - 1, x);
      assert Times(m, k)[x] == Times(m, k - 1)[x] + m[x];
      assert (k - 1) * m[x] + m[x] == k * m[x];
    }
  }

  /** The elements at even positions: what the training loop takes from the positives. */
  function Evens<T>(s: seq<T>): (r: seq<T>)
    ensures |r| == |s| / 2
  {
    seq(|s| / 2, i requires 0 <= i < |s| / 2 => s[2 * i])
  }

  /** The elements at odd positions: what the training loop takes from the negatives. */
  function Odds<T>(s: seq<T>): (r: seq<T>)
    ensures |r| == |s| / 2
  {
    seq(|s| / 2, i requires 0 <= i < |s| / 2 => s[2 * i + 1])
  }

  /** An interleave of `ev` and `od` splits back into them. */
  lemma Streams<T>(out: seq<T>, ev: seq<T>, od: seq<T>)
    requires |out| == 2 * |ev| && |ev| == |od|
    requires forall i :: 0 <= i < |ev| ==> out[2 * i] == ev[i] && out[2 * i + 1] == od[i]
    ensures Evens(out) == ev && Odds(out) == od
  {
  }

  function Max(a: nat, b: nat): nat
  {
    if a < b then b else a
  }

  /**
   * With q = |stream| / |source|, each element occurs in `stream` between q
   * and q + 1 times its multiplicity in `source`.
   */
  ghost predicate CyclicCover(stream: seq<Candidate>, source: seq<Candidate>)
    requires |source| > 0
  {
    var q := |stream| / |source|;
    Times(multiset(source), q) <= multiset(stream) <= Times(multiset(source), q + 1)
  }

  /**
   * The training interleave: 2 * max(|pos|, |neg|) entries, positives at
   * even positions and negatives at odd positions, each class cycled.
   */
  ghost predicate Balanced(out: seq<Candidate>, pos: seq<Candidate>, neg: seq<Candidate>)
  {
    var n := Max(|pos|, |neg|);
    && |out| == 2 * n
    && (n > 0 ==> |pos| > 0 && |neg| > 0 && CyclicCover(Evens(out), pos) && CyclicCover(Odds(out), neg))
  }

  lemma DivUnique(n: nat, m: nat, q: nat, r: nat)
    requires 0 <= r < m
    requires q * m + r == n
    ensures q == n / m
  {
    var d, e := n / m, n % m;
    assert d * m + e == n;
    MulAtLeast(q - d, m);
    assert (q - d) * m == e - r;
  }

  lemma MulAtLeast(t: int, m: nat)
    ensures t >= 1 ==> t * m >= m
    ensures t <= -1 ==> t * m <= -(m as int)
  {
  }

  lemma PrefixStep(P: seq<Candidate>, i: nat)
    requires i < |P|
    ensures multiset(P[..i + 1]) == multiset(P[..i]) + multiset{P[i]}
  {
    assert P[..i + 1] == P[..i] + [P[i]];
  }

  lemma PrefixBound(P: seq<Candidate>, i: nat)
    requires i <= |P|
    ensures multiset(P[..i]) <= multiset(P)
  {
    assert P == P[..i] + P[i..];
  }

  /** One more element of the current round joins the stream. */
  lemma Advance(stream: seq<Candidate>, source: seq<Candidate>, P: seq<Candidate>, i: nat, rounds: nat)
    requires multiset(P) == multiset(source) && i < |P|
    requires multiset(stream) == Times(multiset(source), rounds) + multiset(P[..i])
    ensures multiset(stream + [P[i]]) == Times(multiset(source), rounds) + multiset(P[..i + 1])
    ensures i + 1 == |P| ==> multiset(stream + [P[i]]) == Times(multiset(source), rounds + 1)
  {
    PrefixStep(P, i);
    assert P[..|P|] == P;
  }

  /** Closes one class's cycle invariant into the cover property. */
  lemma CloseCover(stream: seq<Candidate>, source: seq<Candidate>, P: seq<Candidate>, rounds: nat, i: nat)
    requires |source| > 0 && multiset(P) == multiset(source)
    requires i < |P|
    requires multiset(stream) == Times(multiset(source), rounds) + multiset(P[..i])
    ensures CyclicCover(stream, source)
  {
    assert |P| == |source| by {
      assert |multiset(P)| == |P|;
    }
    assert |multiset(stream)| == |stream|;
    assert |multiset(P[..i])| == i;
    TimesSize(multiset(source), rounds);
    DivUnique(|stream|, |source|, rounds, i);
    PrefixBound(P, i);
  }

  lemma CloseBoth(out: seq<Candidate>, pos: seq<Candidate>, neg: seq<Candidate>,
                  P: seq<Candidate>, N: seq<Candidate>, pr: nat, nr: nat, pi: nat, ni: nat)
    requires |out| == 2 * Max(|pos|, |neg|) && |pos| > 0 && |neg| > 0
    requires multiset(P) == multiset(pos) && multiset(N) == multiset(neg)
    requires pi < |P| && ni < |N|
    requires multiset(Evens(out)) == Times(multiset(pos), pr) + multiset(P[..pi])
    requires multiset(Odds(out)) == Times(multiset(neg), nr) + multiset(N[..ni])
    ensures Balanced(out, pos, neg)
  {
    CloseCover(Evens(out), pos, P, pr, pi);
    CloseCover(Odds(out), neg, N, nr, ni);
  }

  /**
   * Moves one class past the element just taken (lines 43-52): at the end of
   * a round the index resets and the list is reshuffled by call `next`.
   */
  method Advance1(P: seq<Candidate>, i: nat, source: seq<Candidate>, shuffle: Shuffler, next: nat,
                  ghost taken: seq<Candidate>, ghost rounds: nat)
    returns (P': seq<Candidate>, i': nat, next': nat, ghost rounds': nat)
    requires Permutes(shuffle)
    requires multiset(P) == multiset(source) && i < |P|
    requires multiset(taken) == Times(multiset(source), rounds) + multiset(P[..i])
    ensures multiset(P') == multiset(source) && i' < |P'|
    ensures multiset(taken + [P[i]]) == Times(multiset(source), rounds') + multiset(P'[..i'])
  {
    Advance(taken, source, P, i, rounds);
    P', i', next', rounds' := P, i + 1, next, rounds;
    if i' >= |P| {
      P', i', next', rounds' := shuffle(P, next), 0, next + 1, rounds + 1;
      assert |multiset(P')| == |P'|;
    }
  }

  /**
   * The training branch (lines 27-52). `draw` is the index of the first
   * shuffle call.
   */
  method TrainingOrder(pos: seq<Candidate>, neg: seq<Candidate>, shuffle: Shuffler, draw: nat)
    returns (r: Result<seq<Candidate>, SaveError>)
    requires Permutes(shuffle)
    ensures r.Success? <==> (|pos| == 0 <==> |neg| == 0)
    ensures r.Success? ==> Balanced(r.value, pos, neg)
  {
    var P := shuffle(pos, draw);
    var N := shuffle(neg, draw + 1);
    var next: nat := draw + 2;
    var n := Max(|pos|, |neg|);
    if n == 0 {
      return Success([]);
    }
    if |pos| == 0 || |neg| == 0 {
      return Failure(IndexError);
    }
    assert |multiset(P)| == |P| && |multiset(N)| == |N|;
    var out: seq<Candidate> := [];
    var pi: nat, ni: nat := 0, 0;
    ghost var pr: nat, nr: nat := 0, 0;
    ghost var ev, od := [], [];   // the positives and negatives taken so far
    for k := 0 to n
      invariant |out| == 2 * k && |ev| == k && |od| == k
      invariant forall i :: 0 <= i < k ==> out[2 * i] == ev[i] && out[2 * i + 1] == od[i]
      invariant multiset(P) == multiset(pos) && multiset(N) == multiset(neg)
      invariant pi < |P| && ni < |N|
      invariant multiset(ev) == Times(multiset(pos), pr) + multiset(P[..pi])
      invariant multiset(od) == Times(multiset(neg), nr) + multiset(N[..ni])
    {
      out := out + [P[pi], N[ni]];
      var P', pi', next', pr' := Advance1(P, pi, pos, shuffle, next, ev, pr);
      ev := ev + [P[pi]];
      P, pi, next, pr := P', pi', next', pr';
      var N', ni', next'', nr' := Advance1(N, ni, neg, shuffle, next, od, nr);
      od := od + [N[ni]];
      N, ni, next, nr := N', ni', next'', nr';
    }
    Streams(out, ev, od);
    CloseBoth(out, pos, neg, P, N, pr, nr, pi, ni);
    return Success(out);
  }

  /**
   * `SaveCandidates`' choice of what to write. A present undetermined list
   * wins, even when empty (the source compares it with None).
   */
  method SaveOrder(pos: seq<Candidate>, neg: seq<Candidate>, inference: bool,
                   undetermined: Option<seq<Candidate>>, shuffle: Shuffler)
    returns (r: Result<seq<Candidate>, SaveError>)
    requires Permutes(shuffle)
    ensures undetermined.Some? ==> r.Success? && multiset(r.value) == multiset(undetermined.value)
    ensures undetermined.None? && inference ==> r.Success? && multiset(r.value) == multiset(pos + neg)
    ensures undetermined.None? && !inference ==> (r.Success? <==> (|pos| == 0 <==> |neg| == 0))
    ensures undetermined.None? && !inference && r.Success? ==> Balanced(r.value, pos, neg)
  {
    if undetermined.Some? {
      return Success(shuffle(undetermined.value, 0));
    } else if inference {
      return Success(shuffle(pos + neg, 0));
    } else {
      r := TrainingOrder(pos, neg, shuffle, 0);
    }
  }

  /** In a balanced interleave the longer class appears exactly once. */
  lemma LongerExactlyOnce(out: seq<Candidate>, pos: seq<Candidate>, neg: seq<Candidate>)
    requires Balanced(out, pos, neg)
    ensures |pos| >= |neg| ==> multiset(Evens(out)) == multiset(pos)
    ensures |neg| >= |pos| ==> multiset(Odds(out)) == multiset(neg)
  {
    if |pos| >= |neg| && |pos| > 0 {
      ExactCover(Evens(out), pos);
    }
    if |neg| >= |pos| && |neg| > 0 {
      ExactCover(Odds(out), neg);
    }
  }

  lemma ExactCover(stream: seq<Candidate>, source: seq<Candidate>)
    requires |source| > 0 && |stream| == |source|
    requires CyclicCover(stream, source)
    ensures multiset(stream) == multiset(source)
  {
    assert |stream| / |source| == 1;
    var lo := Times(multiset(source), 1);
    assert Times(multiset(source), 0) == multiset{};
    assert lo == multiset(source);
    assert lo <= multiset(stream);
    assert |multiset(stream) - lo| == |multiset(stream)| - |lo|;
  }

  /**
   * Each element of a class occurs between floor(n/m) and ceil(n/m) times
   * per copy of it in the class, where m is the class size and n the number
   * of pairs: exactly n/m times when m divides n.
   */
  lemma CountsPerElement(out: seq<Candidate>, pos: seq<Candidate>, neg: seq<Candidate>, x: Candidate)
    requires Balanced(out, pos, neg) && |out| > 0
    ensures var n := |out| / 2; var m := |pos|;
      (n / m) * multiset(pos)[x] <= multiset(Evens(out))[x] <= ((n + m - 1) / m) * multiset(pos)[x]
    ensures var n := |out| / 2; var m := |neg|;
      (n / m) * multiset(neg)[x] <= multiset(Odds(out))[x] <= ((n + m - 1) / m) * multiset(neg)[x]
  {
    CoverCounts(Evens(out), pos, x);
    CoverCounts(Odds(out), neg, x);
  }

  lemma CoverCounts(stream: seq<Candidate>, source: seq<Candidate>, x: Candidate)
    requires |source| > 0 && CyclicCover(stream, source)
    ensures var n, m := |stream|, |source|;
      (n / m) * multiset(source)[x] <= multiset(stream)[x] <= ((n + m - 1) / m) * multiset(source)[x]
  {
    var n, m := |stream|, |source|;
    var q := n / m;
    TimesCount(multiset(source), q, x);
    TimesCount(multiset(source), q + 1, x);
    assert Times(multiset(source), q)[x] <= multiset(stream)[x] <= Times(multiset(source), q + 1)[x];
    CeilDiv(n, m);
    if n % m == 0 {
      WholeRounds(stream, source);
    }
  }

  /** When |source| divides |stream|, the cover holds exactly |stream| / |source| copies of the source. */
  lemma WholeRounds(stream: seq<Candidate>, source: seq<Candidate>)
    requires |source| > 0 && CyclicCover(stream, source) && |stream| % |source| == 0
    ensures multiset(stream) == Times(multiset(source), |stream| / |source|)
  {
    var n, m := |stream|, |source|;
    var q := n / m;
    ExactQuotient(n, m);
    var lo := Times(multiset(source), q);
    TimesSize(multiset(source), q);
    SameSize(lo, multiset(stream));
  }

  /** A sub-multiset of the same size is the whole multiset. */
  lemma SameSize<T>(a: multiset<T>, b: multiset<T>)
    requires a <= b && |a| == |b|
    ensures a == b
  {
    assert |b - a| == |b| - |a|;
  }

  lemma ExactQuotient(n: nat, m: nat)
    requires m > 0 && n % m == 0
    ensures (n / m) * m == n
  {
    var d, e := n / m, n % m;
    assert d * m + e == n;
  }

  lemma CeilDiv(n: nat, m: nat)
    requires m > 0
    ensures (n + m - 1) / m == if n % m == 0 then n / m else n / m + 1
  {
    var q, r := n / m, n % m;
    if r == 0 {
      DivUnique(n + m - 1, m, q, m - 1);
    } else {
      DivUnique(n + m - 1, m, q + 1, r - 1);
    }
  }

  /** Whatever occurs in a cyclic cover of `source` occurs in `source`. */
  lemma CoverMembers(stream: seq<Candidate>, source: seq<Candidate>, k: nat)
    requires |source| > 0 && CyclicCover(stream, source) && k < |stream|
    ensures stream[k] in source
  {
    var x, q := stream[k], |stream| / |source|;
    assert x in multiset(stream);
    TimesCount(multiset(source), q + 1, x);
  }

  /** Positions alternate positive, negative: every even entry is a positive, every odd one a negative. */
  lemma ClassesAlternate(out: seq<Candidate>, pos: seq<Candidate>, neg: seq<Candidate>, k: nat)
    requires Balanced(out, pos, neg) && k < |out| / 2
    ensures out[2 * k] in pos && out[2 * k + 1] in neg
  {
    CoverMembers(Evens(out), pos, k);
    CoverMembers(Odds(out), neg, k);
  }
}
