/** The in-memory challenge store both servers keep: a map from challenge
    token to its expiry time in milliseconds. The token comes from the
    secure random source and `now` from the clock; both are parameters.
 */
module ChallengeStore {

  /** Challenge token (hex string) to expiry timestamp. */
  type Store = map<string, int>

  /** A challenge lives for five minutes. */
  const TtlMs: int := 1000 * 60 * 5

  /** A token is live when it is stored and has not expired yet. */
  predicate Live(s: Store, now: int, token: string) {
    token in s && s[token] > now
  }

  datatype Issued = Issued(store: Store, challenge: string)

  datatype Checked = Checked(store: Store, valid: bool)

  /** `create`: remember `token` (fresh from the random source) with an
      expiry five minutes from `now`, and hand it out. */
  function Create(s: Store, now: int, token: string): (r: Issued)
    ensures r.challenge == token
    ensures r.store.Keys == s.Keys + {token}
    ensures r.store[token] == now + 300000
    ensures forall t :: t in s && t != token ==> r.store[t] == s[t]
  {
    Issued(s[token := now + TtlMs], token)
  }

  /** `verify`: single-use check. An unknown token fails and changes
      nothing; a known token is deleted whether or not it has expired, and
      passes exactly when its expiry lies strictly after `now`. */
  function Verify(s: Store, now: int, token: string): (r: Checked)
    ensures token !in s ==> !r.valid && r.store == s
    ensures token in s ==> r.store.Keys == s.Keys - {token}
    ensures forall t :: t in r.store ==> t in s && r.store[t] == s[t]
    ensures r.valid <==> Live(s, now, token)
  {
    if token !in s then Checked(s, false)
    else Checked(s - {token}, s[token] > now)
  }

  /** After a token has been presented once, presenting it again fails,
      whatever the clock says. */
  lemma VerifySingleUse(s: Store, now1: int, now2: int, token: string)
    ensures !Verify(Verify(s, now1, token).store, now2, token).valid
    ensures Verify(Verify(s, now1, token).store, now2, token).store == Verify(s, now1, token).store
  {
  }

  /** An expired challenge fails its first check and is gone afterwards. */
  lemma ExpiredIsRemoved(s: Store, now: int, token: string)
    requires token in s && s[token] <= now
    ensures !Verify(s, now, token).valid
    ensures token !in Verify(s, now, token).store
  {
  }

  /** A call to the store: `create` with the token the random source gave
      and the clock reading, or `verify` of a presented token. */
  datatype Op = CreateOp(token: string, now: int) | VerifyOp(token: string, now: int)

  /** What the store answered. */
  datatype Reply = Created(token: string) | Verified(token: string, valid: bool)

  datatype Trace = Trace(store: Store, replies: seq<Reply>)

  function Step(s: Store, op: Op): (Store, Reply) {
    match op
    case CreateOp(t, now) =>
      var r := Create(s, now, t); (r.store, Created(r.challenge))
    case VerifyOp(t, now) =>
      var r := Verify(s, now, t); (r.store, Verified(t, r.valid))
  }

  /** Run a sequence of calls against the store, one at a time. */
  function Run(s: Store, ops: seq<Op>): (r: Trace)
    ensures |r.replies| == |ops|
    decreases |ops|
  {
    if ops == [] then Trace(s, [])
    else
      var (s1, reply) := Step(s, ops[0]);
      var rest := Run(s1, ops[1..]);
      Trace(rest.store, [reply] + rest.replies)
  }

  /** How many times `token` was accepted. */
  function Accepted(replies: seq<Reply>, token: string): nat {
    if replies == [] then 0
    else (if replies[0] == Verified(token, true) then 1 else 0) + Accepted(replies[1..], token)
  }

  /** How many times `token` was issued. */
  function Issues(ops: seq<Op>, token: string): nat {
    if ops == [] then 0
    else (if ops[0].CreateOp? && ops[0].token == token then 1 else 0) + Issues(ops[1..], token)
  }

  /** Replay prevention over any run: a token is accepted at most once
      per time it was issued (plus once if it was already outstanding). */
  lemma {:induction false} AcceptedAtMostIssued(s: Store, ops: seq<Op>, token: string)
    ensures Accepted(Run(s, ops).replies, token) <= (if token in s then 1 else 0) + Issues(ops, token)
    decreases |ops|
  {
    if ops != [] {
      var (s1, reply) := Step(s, ops[0]);
      AcceptedAtMostIssued(s1, ops[1..], token);
      assert Run(s, ops).replies == [reply] + Run(s1, ops[1..]).replies;
      assert ([reply] + Run(s1, ops[1..]).replies)[1..] == Run(s1, ops[1..]).replies;
    }
  }

  /** Starting from an empty store, a token the random source hands out
      at most once can pass `verify` at most once. */
  lemma AcceptedAtMostOnce(ops: seq<Op>, token: string)
    requires Issues(ops, token) <= 1
    ensures Accepted(Run(map[], ops).replies, token) <= 1
  {
    AcceptedAtMostIssued(map[], ops, token);
  }

  /** A token that was never issued is never accepted. */
  lemma NeverIssuedNeverAccepted(ops: seq<Op>, token: string)
    requires Issues(ops, token) == 0
    ensures Accepted(Run(map[], ops).replies, token) == 0
  {
    AcceptedAtMostIssued(map[], ops, token);
  }
}
