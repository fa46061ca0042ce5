/** The `POST /verify` handlers of the two servers. Each consumes the
    presented challenges from the store first and only then runs ROLA (the
    per-proof signature and owner-key check, `rola`), which is a parameter:
    the ROLA factory is not part of this model. The response is the flag
    `valid`; the model also returns the store the request leaves behind.
 */
module VerifyHandler {
  import opened Wrappers
  import opened SignedChallenges
  import opened ChallengeStore

  datatype Response = Response(store: Store, valid: bool)

  // ---------------------------------------------------------------------
  // Single proof (the server without the multi-proof extension)
  // ---------------------------------------------------------------------

  /** Check the challenge; answer `valid: false` at once if it fails,
      otherwise answer whether ROLA accepted the proof. */
  function HandleVerify<E>(s: Store, now: int, body: SignedChallenge,
                           rola: SignedChallenge -> Result<(), E>): (r: Response)
    ensures r.valid <==> Live(s, now, body.challenge) && rola(body).Ok?
    ensures r.store.Keys == s.Keys - {body.challenge}
    ensures forall t :: t in r.store ==> r.store[t] == s[t]
  {
    var checked := Verify(s, now, body.challenge);
    if !checked.valid then Response(checked.store, false)
    else Response(checked.store, !rola(body).Err?)
  }

  /** ROLA runs only after the challenge passed: when it did not, the
      answer is `valid: false` whatever ROLA would have said. */
  lemma HandleVerifySkipsRola<E>(s: Store, now: int, body: SignedChallenge,
                                 rola1: SignedChallenge -> Result<(), E>,
                                 rola2: SignedChallenge -> Result<(), E>)
    requires !Live(s, now, body.challenge)
    ensures HandleVerify(s, now, body, rola1) == HandleVerify(s, now, body, rola2)
    ensures !HandleVerify(s, now, body, rola1).valid
  {
  }

  /** A live challenge whose proof ROLA rejects is still burnt. */
  lemma FailedProofBurnsChallenge<E>(s: Store, now: int, body: SignedChallenge,
                                     rola: SignedChallenge -> Result<(), E>)
    requires Live(s, now, body.challenge) && rola(body).Err?
    ensures !HandleVerify(s, now, body, rola).valid
    ensures body.challenge !in HandleVerify(s, now, body, rola).store
  {
  }

  /** Replaying an accepted request is rejected. */
  lemma ReplayRejected<E>(s: Store, now1: int, now2: int, body: SignedChallenge,
                          rola: SignedChallenge -> Result<(), E>)
    ensures !HandleVerify(HandleVerify(s, now1, body, rola).store, now2, body, rola).valid
  {
  }

  // ---------------------------------------------------------------------
  // Several proofs (the server under apps/)
  // ---------------------------------------------------------------------

  predicate NoDuplicates<T(==)>(xs: seq<T>) {
    forall i, j :: 0 <= i < j < |xs| ==> xs[i] != xs[j]
  }

  function Elements<T>(xs: seq<T>): set<T> {
    set x | x in xs
  }

  /** Position of the first occurrence of `x` in `xs`. */
  function FirstIndex<T(==)>(xs: seq<T>, x: T): (k: nat)
    requires x in xs
    ensures k < |xs| && xs[k] == x && x !in xs[..k]
  {
    if xs[0] == x then 0 else 1 + FirstIndex(xs[1..], x)
  }

  lemma FirstIndexOfPrefix<T>(xs: seq<T>, n: nat, x: T)
    requires n <= |xs| && x in xs[..n]
    ensures x in xs && FirstIndex(xs, x) == FirstIndex(xs[..n], x)
  {
    var k := FirstIndex(xs[..n], x);
    assert xs[..n][..k] == xs[..k];
    FirstIndexUnique(xs, x, k);
  }

  /** The first occurrence is the only position before which `x` does not
      occur. */
  lemma FirstIndexUnique<T>(xs: seq<T>, x: T, k: nat)
    requires k < |xs| && xs[k] == x && x !in xs[..k]
    ensures FirstIndex(xs, x) == k
  {
  }

  /** The distinct elements of `xs` in order of first occurrence: what
      spreading a `Set` built by adding each element in turn gives. */
  function Dedup<T(==,!new)>(xs: seq<T>): (r: seq<T>)
    ensures NoDuplicates(r)
    ensures forall x :: x in r <==> x in xs
  {
    if xs == [] then []
    else
      var d := Dedup(xs[..|xs| - 1]);
      var last := xs[|xs| - 1];
      assert xs == xs[..|xs| - 1] + [last];
      if last in d then d else d + [last]
  }

  /** `r` lists elements of `xs` in the order they first occur in `xs`. */
  predicate InFirstOccurrenceOrder<T(==)>(xs: seq<T>, r: seq<T>) {
    && (forall i :: 0 <= i < |r| ==> r[i] in xs)
    && (forall i, j :: 0 <= i < j < |r| ==> FirstIndex(xs, r[i]) < FirstIndex(xs, r[j]))
  }

  /** Dedup keeps elements in the order of their first occurrence. */
  lemma {:induction false} DedupFirstOccurrenceOrder<T(!new)>(xs: seq<T>)
    ensures InFirstOccurrenceOrder(xs, Dedup(xs))
  {
    if xs != [] {
      var init, last := xs[..|xs| - 1], xs[|xs| - 1];
      var d := Dedup(init);
      DedupFirstOccurrenceOrder(init);
      assert forall i :: 0 <= i < |d| ==> d[i] in init;
      if last in d {
        assert Dedup(xs) == d;
        OrderExtendsToWhole(xs, d);
      } else {
        assert Dedup(xs) == d + [last];
        assert last !in init;
        OrderExtendsToWhole(xs, d);
        OrderWithNewLast(xs, d);
      }
    }
  }

  /** An order by first occurrence in a prefix that leaves out only the
      last element is one in the whole sequence. */
  lemma OrderExtendsToWhole<T>(xs: seq<T>, d: seq<T>)
    requires |xs| > 0 && InFirstOccurrenceOrder(xs[..|xs| - 1], d)
    ensures InFirstOccurrenceOrder(xs, d)
  {
    var init := xs[..|xs| - 1];
    forall i | 0 <= i < |d| ensures d[i] in xs {
      var k := FirstIndex(init, d[i]);
      assert xs[k] == d[i];
    }
    forall i, j | 0 <= i < j < |d| ensures FirstIndex(xs, d[i]) < FirstIndex(xs, d[j]) {
      FirstIndexPrefixOrder(xs, |xs| - 1, d[i], d[j]);
    }
  }

  /** Appending the last element, when it is new, keeps the order. */
  lemma OrderWithNewLast<T>(xs: seq<T>, d: seq<T>)
    requires |xs| > 0 && xs[|xs| - 1] !in xs[..|xs| - 1]
    requires InFirstOccurrenceOrder(xs, d)
    requires forall i :: 0 <= i < |d| ==> d[i] in xs[..|xs| - 1]
    ensures InFirstOccurrenceOrder(xs, d + [xs[|xs| - 1]])
  {
    var r := d + [xs[|xs| - 1]];
    forall i, j | 0 <= i < j < |r| ensures FirstIndex(xs, r[i]) < FirstIndex(xs, r[j]) {
      assert r[i] == d[i];
      if j == |d| {
        FirstIndexBeforeLast(xs, d[i]);
      }
    }
  }

  /** Two elements of a prefix are ordered by first occurrence in the
      whole sequence as they are in the prefix. */
  lemma {:induction false} FirstIndexPrefixOrder<T>(xs: seq<T>, n: nat, x: T, y: T)
    requires n <= |xs| && x in xs[..n] && y in xs[..n]
    requires FirstIndex(xs[..n], x) < FirstIndex(xs[..n], y)
    ensures FirstIndex(xs, x) < FirstIndex(xs, y)
  {
    FirstIndexOfPrefix(xs, n, x);
    FirstIndexOfPrefix(xs, n, y);
  }

  /** An element met before the last position comes before a last element
      that is new. */
  lemma FirstIndexBeforeLast<T>(xs: seq<T>, x: T)
    requires |xs| > 0 && x in xs[..|xs| - 1] && xs[|xs| - 1] !in xs[..|xs| - 1]
    ensures FirstIndex(xs, x) < FirstIndex(xs, xs[|xs| - 1])
  {
    var n := |xs| - 1;
    FirstIndexOfPrefix(xs, n, x);
  }

  /** Position of the first token that is not live in `s`, or the number
      of tokens when all are live. */
  function FirstDead(s: Store, now: int, tokens: seq<string>): (k: nat)
    ensures k <= |tokens|
    ensures forall i :: 0 <= i < k ==> Live(s, now, tokens[i])
    ensures k < |tokens| ==> !Live(s, now, tokens[k])
  {
    if tokens == [] || !Live(s, now, tokens[0]) then 0
    else 1 + FirstDead(s, now, tokens[1..])
  }

  /** `tokens.every(t => store.verify(t))`: consume the tokens in order
      and stop at the first one that fails. */
  function Every(s: Store, now: int, tokens: seq<string>): (r: Response)
    ensures r.valid ==> forall i :: 0 <= i < |tokens| ==> Live(s, now, tokens[i])
    ensures forall t :: t in r.store ==> t in s && r.store[t] == s[t]
    ensures forall t :: t in s && t !in tokens ==> t in r.store
  {
    if tokens == [] then Response(s, true)
    else
      var checked := Verify(s, now, tokens[0]);
      if !checked.valid then Response(checked.store, false)
      else
        var r := Every(checked.store, now, tokens[1..]);
        assert forall i :: 1 <= i < |tokens| ==> tokens[i] == tokens[1..][i - 1];
        r
  }

  /** How many tokens `every` visits: up to and including the first one
      that fails. */
  function Visited(s: Store, now: int, tokens: seq<string>): nat {
    var k := FirstDead(s, now, tokens);
    if k < |tokens| then k + 1 else k
  }

  /** Tokens that are not in the map do not change which token is dead
      first. */
  lemma FirstDeadAfterRemoval(s: Store, now: int, t: string, tokens: seq<string>)
    requires t !in tokens
    ensures FirstDead(s - {t}, now, tokens) == FirstDead(s, now, tokens)
  {
  }

  /** On distinct tokens `every` consumes exactly the tokens up to and
      including the first dead one, leaves every later token in the
      store, and succeeds exactly when all tokens were live. */
  lemma {:induction false} EveryDistinct(s: Store, now: int, tokens: seq<string>)
    requires NoDuplicates(tokens)
    ensures Every(s, now, tokens) ==
      Response(s - Elements(tokens[..Visited(s, now, tokens)]), FirstDead(s, now, tokens) == |tokens|)
  {
    if tokens != [] {
      var t, rest := tokens[0], tokens[1..];
      if Live(s, now, t) {
        TailDistinct(tokens);
        EveryDistinct(s - {t}, now, rest);
        FirstDeadAfterRemoval(s, now, t, rest);
        var n := Visited(s - {t}, now, rest);
        assert Visited(s, now, tokens) == n + 1;
        RemoveOneMore(s, tokens, n);
      } else {
        assert tokens[..1] == [t];
        assert Elements(tokens[..1]) == {t};
      }
    }
  }

  lemma TailDistinct(tokens: seq<string>)
    requires NoDuplicates(tokens) && |tokens| > 0
    ensures NoDuplicates(tokens[1..]) && tokens[0] !in tokens[1..]
  {
    var rest := tokens[1..];
    forall i | 0 <= i < |rest| ensures rest[i] != tokens[0] {
      assert rest[i] == tokens[i + 1];
    }
    forall i, j | 0 <= i < j < |rest| ensures rest[i] != rest[j] {
      assert rest[i] == tokens[i + 1] && rest[j] == tokens[j + 1];
    }
  }

  /** Removing the head, then `n` tokens of the tail, removes the first
      `n + 1` tokens. */
  lemma RemoveOneMore(s: Store, tokens: seq<string>, n: nat)
    requires 0 < |tokens| && n < |tokens|
    ensures (s - {tokens[0]}) - Elements(tokens[1..][..n]) == s - Elements(tokens[..n + 1])
  {
    assert tokens[..n + 1] == [tokens[0]] + tokens[1..][..n];
    assert Elements(tokens[..n + 1]) == {tokens[0]} + Elements(tokens[1..][..n]);
  }

  /** `ResultAsync.combine`: all values when every result is ok, else the
      first error in list order. */
  function Combine<T, E>(rs: seq<Result<T, E>>): (r: Result<seq<T>, E>)
    ensures r.Ok? <==> forall i :: 0 <= i < |rs| ==> rs[i].Ok?
    ensures r.Ok? ==> |r.value| == |rs| && forall i :: 0 <= i < |rs| ==> rs[i] == Ok(r.value[i])
    ensures r.Err? ==> exists i :: 0 <= i < |rs| && rs[i] == Err(r.error) && forall j :: 0 <= j < i ==> rs[j].Ok?
  {
    if rs == [] then Ok([])
    else
      match rs[0]
      case Err(e) => Err(e)
      case Ok(v) =>
        var rest := Combine(rs[1..]);
        assert forall i :: 1 <= i < |rs| ==> rs[i] == rs[1..][i - 1];
        match rest
        case Ok(vs) => Ok([v] + vs)
        case Err(e) =>
          FirstErrorShifts(rs, e);
          Err(e)
  }

  /** A first error of the tail is a first error of the whole list when
      the head is ok. */
  lemma FirstErrorShifts<T, E>(rs: seq<Result<T, E>>, e: E)
    requires |rs| > 0 && rs[0].Ok?
    requires exists i :: 0 <= i < |rs[1..]| && rs[1..][i] == Err(e) && forall j :: 0 <= j < i ==> rs[1..][j].Ok?
    ensures exists i :: 0 <= i < |rs| && rs[i] == Err(e) && forall j :: 0 <= j < i ==> rs[j].Ok?
  {
    var i :| 0 <= i < |rs[1..]| && rs[1..][i] == Err(e) && forall j :: 0 <= j < i ==> rs[1..][j].Ok?;
    assert rs[i + 1] == Err(e);
    assert forall j :: 0 <= j < i + 1 ==> rs[j].Ok? by {
      forall j | 0 <= j < i + 1 ensures rs[j].Ok? {
        if j > 0 { assert rs[j] == rs[1..][j - 1]; }
      }
    }
  }

  /** The challenge of every proof, in request order. */
  function Challenges(body: seq<SignedChallenge>): (r: seq<string>)
    ensures |r| == |body| && forall i :: 0 <= i < |body| ==> r[i] == body[i].challenge
  {
    seq(|body|, i requires 0 <= i < |body| => body[i].challenge)
  }

  /** `body.map(rola)`: ROLA's verdict on every proof, in request order. */
  function Verdicts<E>(body: seq<SignedChallenge>, rola: SignedChallenge -> Result<(), E>): (r: seq<Result<(), E>>)
    ensures |r| == |body| && forall i :: 0 <= i < |body| ==> r[i] == rola(body[i])
  {
    seq(|body|, i requires 0 <= i < |body| => rola(body[i]))
  }

  /** The distinct challenges in order of first occurrence. */
  function DistinctChallenges(body: seq<SignedChallenge>): seq<string> {
    Dedup(Challenges(body))
  }

  /** Every proof's challenge is live in `s`. */
  predicate AllLive(s: Store, now: int, body: seq<SignedChallenge>) {
    forall i :: 0 <= i < |body| ==> Live(s, now, body[i].challenge)
  }

  /** Every proof passes ROLA. */
  predicate AllPass<E>(body: seq<SignedChallenge>, rola: SignedChallenge -> Result<(), E>) {
    forall i :: 0 <= i < |body| ==> rola(body[i]).Ok?
  }

  /** De-duplicate the challenges, consume them with `every`, and only if
      all were live combine ROLA's verdicts on every proof. */
  function HandleVerifyProofs<E>(s: Store, now: int, body: seq<SignedChallenge>,
                                 rola: SignedChallenge -> Result<(), E>): (r: Response)
    ensures r.valid <==> AllLive(s, now, body) && AllPass(body, rola)
  {
    var challenges := DistinctChallenges(body);
    var consumed := Every(s, now, challenges);
    ConsumedIffAllLive(s, now, body);
    if !consumed.valid then Response(consumed.store, false)
    else
      var result := Combine(Verdicts(body, rola));
      Response(consumed.store, !result.Err?)
  }

  /** `every` over the distinct challenges succeeds exactly when every
      proof's challenge is live. */
  lemma ConsumedIffAllLive(s: Store, now: int, body: seq<SignedChallenge>)
    ensures Every(s, now, DistinctChallenges(body)).valid <==> AllLive(s, now, body)
  {
    EveryDistinct(s, now, DistinctChallenges(body));
    DistinctLiveIffAllLive(s, now, body);
  }

  lemma DistinctLiveIffAllLive(s: Store, now: int, body: seq<SignedChallenge>)
    ensures var d := DistinctChallenges(body);
      FirstDead(s, now, d) == |d| <==> AllLive(s, now, body)
  {
    var d := DistinctChallenges(body);
    var cs := Challenges(body);
    if FirstDead(s, now, d) == |d| {
      forall i | 0 <= i < |body| ensures Live(s, now, body[i].challenge) {
        assert cs[i] in cs;
        assert cs[i] in d;
      }
    }
    if AllLive(s, now, body) {
      forall k | 0 <= k < |d| ensures Live(s, now, d[k]) {
        assert d[k] in d && d[k] in cs;
        var i :| 0 <= i < |cs| && cs[i] == d[k];
      }
    }
  }

  /** What the request leaves in the store: with every challenge live, all
      of them are consumed; otherwise the distinct challenges are
      consumed in order of first occurrence up to and including the first
      dead one, and the later ones stay in the store. */
  lemma HandleVerifyProofsStore<E>(s: Store, now: int, body: seq<SignedChallenge>,
                                   rola: SignedChallenge -> Result<(), E>)
    ensures AllLive(s, now, body) ==>
      HandleVerifyProofs(s, now, body, rola).store == s - Elements(Challenges(body))
    ensures var d := DistinctChallenges(body); var k := FirstDead(s, now, d);
      !AllLive(s, now, body) ==>
        && k < |d| && !Live(s, now, d[k])
        && HandleVerifyProofs(s, now, body, rola).store == s - Elements(d[..k + 1])
        && forall j :: k < j < |d| && d[j] in s ==> d[j] in HandleVerifyProofs(s, now, body, rola).store
  {
    var d := DistinctChallenges(body);
    EveryDistinct(s, now, d);
    DistinctLiveIffAllLive(s, now, body);
    if AllLive(s, now, body) {
      assert d[..|d|] == d;
      assert Elements(d) == Elements(Challenges(body));
    } else {
      var k := FirstDead(s, now, d);
      forall j | k < j < |d| && d[j] in s ensures d[j] !in Elements(d[..k + 1]) {
      }
    }
  }

  /** Once a challenge fails, ROLA is never consulted: the response does
      not depend on it. */
  lemma HandleVerifyProofsSkipsRola<E>(s: Store, now: int, body: seq<SignedChallenge>,
                                       rola1: SignedChallenge -> Result<(), E>,
                                       rola2: SignedChallenge -> Result<(), E>)
    requires !AllLive(s, now, body)
    ensures HandleVerifyProofs(s, now, body, rola1) == HandleVerifyProofs(s, now, body, rola2)
    ensures !HandleVerifyProofs(s, now, body, rola1).valid
  {
    EveryDistinct(s, now, DistinctChallenges(body));
    DistinctLiveIffAllLive(s, now, body);
  }

  /** With a single proof the multi-proof handler behaves as the
      single-proof handler of the other server. */
  lemma SingleProofAgrees<E>(s: Store, now: int, b: SignedChallenge,
                             rola: SignedChallenge -> Result<(), E>)
    ensures HandleVerifyProofs(s, now, [b], rola) == HandleVerify(s, now, b, rola)
  {
    var cs := Challenges([b]);
    assert cs == [b.challenge];
    assert cs[..0] == [];
    assert Dedup(cs) == [b.challenge];
    assert Every(s, now, [b.challenge]).store == Verify(s, now, b.challenge).store;
    var vs := Verdicts([b], rola);
    assert vs == [rola(b)];
    assert vs[1..] == [];
  }

  /** Replaying a request that carries at least one proof is rejected,
      whatever the first answer was: its first challenge is gone. */
  lemma ReplayRejectedProofs<E>(s: Store, now1: int, now2: int, body: seq<SignedChallenge>,
                                rola: SignedChallenge -> Result<(), E>)
    requires |body| > 0
    ensures !HandleVerifyProofs(HandleVerifyProofs(s, now1, body, rola).store, now2, body, rola).valid
  {
    var s1 := HandleVerifyProofs(s, now1, body, rola).store;
    HandleVerifyProofsStore(s, now1, body, rola);
    var d := DistinctChallenges(body);
    assert Challenges(body)[0] in Challenges(body);
    assert body[0].challenge !in s1 by {
      if AllLive(s, now1, body) {
        assert body[0].challenge in Elements(Challenges(body));
      } else {
        var k := FirstDead(s, now1, d);
        var cs := Challenges(body);
        assert cs[0] in d;
        var j :| 0 <= j < |d| && d[j] == cs[0];
        DedupFirstOccurrenceOrder(cs);
        assert d[j] in Elements(d[..k + 1]);
      }
    }
    assert !Live(s1, now2, body[0].challenge);
  }

  /** The source as written: a request carrying no proof at all is
      answered `valid: true` and consumes nothing. */
  lemma EmptyProofSetAccepted<E>(s: Store, now: int, rola: SignedChallenge -> Result<(), E>)
    ensures HandleVerifyProofs(s, now, [], rola) == Response(s, true)
  {
    assert Challenges([]) == [];
    assert Combine<(), E>([]) == Ok([]);
  }

  /** The handler as intended: a request needs at least one proof, and is
      valid exactly when it has one, all its challenges are live and all
      its proofs pass ROLA. */
  function HandleVerifyProofsNonEmpty<E>(s: Store, now: int, body: seq<SignedChallenge>,
                                         rola: SignedChallenge -> Result<(), E>): (r: Response)
    ensures r.valid <==> |body| > 0 && AllLive(s, now, body) && AllPass(body, rola)
    ensures r.valid ==> forall i :: 0 <= i < |body| ==> body[i].challenge !in r.store
  {
    if body == [] then Response(s, false)
    else
      HandleVerifyProofsStore(s, now, body, rola);
      HandleVerifyProofs(s, now, body, rola)
  }
}
