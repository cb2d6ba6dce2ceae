/**
 From a list of error codes to the one HTTP status a client sees
 (router.go, aggregator.go dedupeErrors).
 */
module ErrorStatus {
  import opened Options
  import opened UpstreamErrors

  function Priority(c: Code): nat {
    match c
    case RateLimitExceeded => 100
    case Unauthorized => 95
    case PayloadTooLarge | UpstreamBodyTooLarge => 90
    case ValueConflict => 80
    case UpstreamUnavailable | UpstreamError | UpstreamMalformed
       | Aborted | UpstreamClientError | UpstreamRedirect => 50
    case InternalError => 10
  }

  function StatusFor(c: Code): int {
    match c
    case RateLimitExceeded => 429
    case PayloadTooLarge => 413
    case UpstreamBodyTooLarge | UpstreamUnavailable | UpstreamError
       | UpstreamMalformed | UpstreamClientError | UpstreamRedirect => 502
    case ValueConflict => 409
    case Aborted => 503
    case InternalError => 500
    case Unauthorized => 401
  }

  /** c stands at i, nothing outranks it, and everything before i ranks strictly lower. */
  ghost predicate PrimaryAt(es: seq<Code>, c: Code, i: nat) {
    && i < |es| && es[i] == c
    && (forall j | 0 <= j < |es| :: Priority(es[j]) <= Priority(c))
    && (forall j | 0 <= j < i :: Priority(es[j]) < Priority(c))
  }

  ghost predicate IsPrimary(es: seq<Code>, c: Code) {
    exists i: nat :: PrimaryAt(es, c, i)
  }

  method SelectPrimaryError(es: seq<Code>) returns (c: Code)
    requires es != []
    ensures IsPrimary(es, c) && c == Primary(es)
  {
    var best: int := -1;
    c := InternalError;
    ghost var at := 0;
    for k := 0 to |es|
      invariant k == 0 ==> best == -1
      invariant k > 0 ==> best == Priority(c) && PrimaryAt(es[..k], c, at)
    {
      if Priority(es[k]) > best {
        best := Priority(es[k]);
        c := es[k];
        at := k;
      }
    }
    assert es[..|es|] == es;
    assert PrimaryAt(es, c, at);
    PrimaryUnique(es, c, Primary(es));
  }

  lemma PrimaryUnique(es: seq<Code>, c: Code, d: Code)
    requires IsPrimary(es, c) && IsPrimary(es, d)
    ensures c == d
  {
    var i: nat :| PrimaryAt(es, c, i);
    var j: nat :| PrimaryAt(es, d, j);
    assert Priority(es[i]) <= Priority(d) && Priority(es[j]) <= Priority(c);
  }

  /** The primary error as a function of the list. */
  function Primary(es: seq<Code>): (c: Code)
    requires es != []
    ensures IsPrimary(es, c)
  {
    var n := |es| - 1;
    if n == 0 then
      assert PrimaryAt(es, es[0], 0);
      es[0]
    else
      var c := Primary(es[..n]);
      var r := if Priority(es[n]) > Priority(c) then es[n] else c;
      assert IsPrimary(es, r) by {
        var i: nat :| PrimaryAt(es[..n], c, i);
        assert forall j | 0 <= j < n :: es[j] == es[..n][j];
        assert PrimaryAt(es, r, if Priority(es[n]) > Priority(c) then n else i);
      }
      r
  }

  // ------------------------------------------ The choice, without numbers

  /** The codes from the most to the least specific; within a rank the first to occur counts. */
  const RANKS: seq<set<Code>> :=
    [{RateLimitExceeded}, {Unauthorized}, OVERSIZED, {ValueConflict}, UPSTREAM, {InternalError}]

  const OVERSIZED: set<Code> := {PayloadTooLarge, UpstreamBodyTooLarge}

  const UPSTREAM: set<Code> :=
    {UpstreamUnavailable, UpstreamError, UpstreamMalformed, Aborted, UpstreamClientError, UpstreamRedirect}

  /** Of the codes in `rivals`, c is the first in the list. */
  ghost predicate FirstOf(es: seq<Code>, rivals: set<Code>, c: Code) {
    c in rivals && exists i :: 0 <= i < |es| && es[i] == c && forall j | 0 <= j < i :: es[j] !in rivals
  }

  ghost predicate NoneOf(es: seq<Code>, codes: set<Code>) {
    forall e | e in es :: e !in codes
  }

  /** No code of a rank before t occurs. */
  ghost predicate NoneBefore(es: seq<Code>, t: int)
    requires t <= |RANKS|
  {
    forall u | 0 <= u < t :: NoneOf(es, RANKS[u])
  }

  /** The primary error is the first code of the highest rank that occurs at all. */
  lemma PrimaryByRank(es: seq<Code>)
    requires es != []
    ensures exists t :: 0 <= t < |RANKS| && FirstOf(es, RANKS[t], Primary(es)) && NoneBefore(es, t)
  {
    var c := Primary(es);
    var i: nat :| PrimaryAt(es, c, i);
    var t := match c
             case RateLimitExceeded => 0
             case Unauthorized => 1
             case PayloadTooLarge | UpstreamBodyTooLarge => 2
             case ValueConflict => 3
             case InternalError => 5
             case _ => 4;
    assert FirstOf(es, RANKS[t], c);
    forall u, e | 0 <= u < t && e in es ensures e !in RANKS[u] {
      var j :| 0 <= j < |es| && es[j] == e;
      assert Priority(es[j]) <= Priority(c);
    }
  }

  lemma RanksDiffer(c: Code, t: int, u: int)
    requires 0 <= t < |RANKS| && 0 <= u < |RANKS| && c in RANKS[t] && c in RANKS[u]
    ensures t == u
  {
  }

  lemma FirstOfUnique(es: seq<Code>, rivals: set<Code>, c: Code, d: Code)
    requires FirstOf(es, rivals, c) && FirstOf(es, rivals, d)
    ensures c == d
  {
  }

  /** So a code of rank t is chosen exactly when it is the first of its rank and nothing above occurs. */
  lemma PrimaryIs(es: seq<Code>, t: int, c: Code)
    requires es != [] && 0 <= t < |RANKS| && c in RANKS[t]
    ensures Primary(es) == c <==> FirstOf(es, RANKS[t], c) && NoneBefore(es, t)
  {
    PrimaryByRank(es);
    var d := Primary(es);
    var u :| 0 <= u < |RANKS| && FirstOf(es, RANKS[u], d) && NoneBefore(es, u);
    assert d in es;
    if d == c {
      RanksDiffer(c, t, u);
    } else if FirstOf(es, RANKS[t], c) && NoneBefore(es, t) {
      assert c in es;
      if t == u {
        FirstOfUnique(es, RANKS[t], c, d);
      }
    }
  }

  // ------------------------------------------------------- Deduplication

  /** Each code once, in the order of first appearance. */
  function Deduped(es: seq<Code>): seq<Code> {
    if es == [] then [] else
    var rest, last := es[..|es| - 1], es[|es| - 1];
    if last in rest then Deduped(rest) else Deduped(rest) + [last]
  }

  /** Where c first appears. */
  function FirstIndex(es: seq<Code>, c: Code): (i: nat)
    requires c in es
    ensures i < |es| && es[i] == c && c !in es[..i]
  {
    if es[0] == c then 0 else 1 + FirstIndex(es[1..], c)
  }

  lemma {:induction false} FirstIndexUnique(es: seq<Code>, c: Code, i: nat)
    requires i < |es| && es[i] == c && c !in es[..i]
    ensures FirstIndex(es, c) == i
  {
    if i > 0 {
      assert es[0] == es[..i][0] && es[1..][..i - 1] == es[..i][1..];
      FirstIndexUnique(es[1..], c, i - 1);
    }
  }

  /** Appending an error does not move the first appearance of an earlier one. */
  lemma FirstIndexSnoc(es: seq<Code>, last: Code, c: Code)
    requires c in es
    ensures FirstIndex(es + [last], c) == FirstIndex(es, c)
  {
    var i := FirstIndex(es, c);
    assert (es + [last])[..i] == es[..i];
    FirstIndexUnique(es + [last], c, i);
  }

  /** out lists codes of es in the order in which they first appear there, so none twice. */
  ghost predicate InFirstOrder(es: seq<Code>, out: seq<Code>) {
    && (forall c | c in out :: c in es)
    && forall i, j | 0 <= i < j < |out| :: FirstIndex(es, out[i]) < FirstIndex(es, out[j])
  }

  /** Every code is kept, once, in the order of first appearance. */
  lemma {:induction false} DedupedMeaning(es: seq<Code>)
    ensures forall c :: c in Deduped(es) <==> c in es
    ensures InFirstOrder(es, Deduped(es))
  {
    if es != [] {
      var rest, last := es[..|es| - 1], es[|es| - 1];
      DedupedMeaning(rest);
      assert es == rest + [last];
      forall c | c in rest ensures FirstIndex(es, c) == FirstIndex(rest, c) {
        FirstIndexSnoc(rest, last, c);
      }
      if last !in rest {
        assert es[..|rest|] == rest;
        FirstIndexUnique(es, last, |rest|);
      }
    }
  }

  method DedupeErrors(es: seq<Code>) returns (out: seq<Code>)
    ensures out == Deduped(es)
  {
    if |es| <= 1 {
      assert |es| == 1 ==> es[..0] == [];
      return es;
    }
    var seen: set<Code> := {};
    out := [];
    for k := 0 to |es|
      invariant out == Deduped(es[..k])
      invariant forall c :: c in seen <==> c in es[..k]
    {
      assert es[..k + 1][..k] == es[..k] && es[..k + 1] == es[..k] + [es[k]];
      if es[k] !in seen {
        seen := seen + {es[k]};
        out := out + [es[k]];
      }
    }
    assert es[..|es|] == es;
  }

  /** Dropping repeats never changes which error decides the response. */
  lemma {:induction false} DedupeKeepsPrimary(es: seq<Code>)
    requires es != []
    ensures Deduped(es) != [] && Primary(Deduped(es)) == Primary(es)
  {
    var rest, last := es[..|es| - 1], es[|es| - 1];
    if rest == [] {
      assert Deduped(rest) == [];
    } else {
      DedupeKeepsPrimary(rest);
      if last in rest {
        var j :| 0 <= j < |rest| && rest[j] == last;
        var i: nat :| PrimaryAt(rest, Primary(rest), i);
        assert Priority(rest[j]) <= Priority(Primary(rest));
      } else {
        assert Deduped(es)[..|Deduped(rest)|] == Deduped(rest);
      }
    }
  }

  function StatusFromErrors(es: seq<Code>): int {
    if es == [] then 200 else StatusFor(Primary(es))
  }

  /** Every list of errors, and the status it is reduced to. */
  lemma StatusMeaning(es: seq<Code>)
    requires es != []
    ensures var s := StatusFromErrors(es);
            && (s == 429 <==> RateLimitExceeded in es)
            && (s == 401 <==> Unauthorized in es && RateLimitExceeded !in es)
            && (s == 413 <==> FirstOf(es, OVERSIZED, PayloadTooLarge) &&
                              NoneOf(es, {RateLimitExceeded, Unauthorized}))
            && (s == 409 <==> ValueConflict in es && NoneOf(es, {RateLimitExceeded, Unauthorized} + OVERSIZED))
            && (s == 503 <==> FirstOf(es, UPSTREAM, Aborted) &&
                              NoneOf(es, {RateLimitExceeded, Unauthorized, ValueConflict} + OVERSIZED))
            && (s == 500 <==> forall e | e in es :: e == InternalError)
            && s in {429, 401, 413, 409, 503, 500, 502}
  {
    var c := Primary(es);
    assert c == RateLimitExceeded <==> RateLimitExceeded in es by {
      PrimaryIs(es, 0, RateLimitExceeded);
      LoneFirst(es, RateLimitExceeded);
    }
    assert c == Unauthorized <==> Unauthorized in es && RateLimitExceeded !in es by {
      PrimaryIs(es, 1, Unauthorized);
      LoneFirst(es, Unauthorized);
      NoneBeforeMeans(es);
    }
    assert c == PayloadTooLarge <==>
           FirstOf(es, OVERSIZED, PayloadTooLarge) && NoneOf(es, {RateLimitExceeded, Unauthorized}) by {
      PrimaryIs(es, 2, PayloadTooLarge);
      NoneBeforeMeans(es);
    }
    assert c == ValueConflict <==>
           ValueConflict in es && NoneOf(es, {RateLimitExceeded, Unauthorized} + OVERSIZED) by {
      PrimaryIs(es, 3, ValueConflict);
      LoneFirst(es, ValueConflict);
      NoneBeforeMeans(es);
    }
    assert c == Aborted <==>
           FirstOf(es, UPSTREAM, Aborted) &&
           NoneOf(es, {RateLimitExceeded, Unauthorized, ValueConflict} + OVERSIZED) by {
      PrimaryIs(es, 4, Aborted);
      NoneBeforeMeans(es);
    }
    OnlyInternal(es);
  }

  lemma LoneFirst(es: seq<Code>, c: Code)
    ensures FirstOf(es, {c}, c) <==> c in es
  {
    if c in es {
      assert es[FirstIndex(es, c)] == c;
    }
  }

  lemma NoneBeforeMeans(es: seq<Code>)
    ensures NoneBefore(es, 1) <==> RateLimitExceeded !in es
    ensures NoneBefore(es, 2) <==> NoneOf(es, {RateLimitExceeded, Unauthorized})
    ensures NoneBefore(es, 3) <==> NoneOf(es, {RateLimitExceeded, Unauthorized} + OVERSIZED)
    ensures NoneBefore(es, 4) <==> NoneOf(es, {RateLimitExceeded, Unauthorized, ValueConflict} + OVERSIZED)
  {
    assert NoneOf(es, RANKS[0]) <==> RateLimitExceeded !in es;
    assert NoneOf(es, RANKS[1]) <==> Unauthorized !in es;
    assert NoneOf(es, RANKS[3]) <==> ValueConflict !in es;
    assert NoneBefore(es, 1) <==> NoneOf(es, RANKS[0]);
    assert NoneBefore(es, 2) <==> NoneBefore(es, 1) && NoneOf(es, RANKS[1]);
    assert NoneBefore(es, 3) <==> NoneBefore(es, 2) && NoneOf(es, RANKS[2]);
    assert NoneBefore(es, 4) <==> NoneBefore(es, 3) && NoneOf(es, RANKS[3]);
  }

  lemma OnlyInternal(es: seq<Code>)
    requires es != []
    ensures Primary(es) == InternalError <==> forall e | e in es :: e == InternalError
  {
    var c := Primary(es);
    var i: nat :| PrimaryAt(es, c, i);
    assert es[i] in es;
    forall e | c == InternalError && e in es ensures e == InternalError {
      var j :| 0 <= j < |es| && es[j] == e;
      assert Priority(es[j]) <= Priority(c);
    }
  }

  lemma DedupeKeepsStatus(es: seq<Code>)
    ensures StatusFromErrors(Deduped(es)) == StatusFromErrors(es)
  {
    if es != [] {
      DedupeKeepsPrimary(es);
    }
  }

  /** The codes a failed upstream call is reported as. */
  ghost predicate FromUpstream(c: Code) {
    exists k :: c == CodeOf(Some(k))
  }

  lemma UpstreamStatuses(es: seq<Code>)
    requires es != [] && forall c | c in es :: FromUpstream(c)
    ensures StatusFromErrors(es) in {500, 502, 503}
  {
    var c := Primary(es);
    var i: nat :| PrimaryAt(es, c, i);
    assert es[i] in es;
    var k :| es[i] == CodeOf(Some(k));
  }
}
